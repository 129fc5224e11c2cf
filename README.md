# Whisper batch transcriber: verified model of the command builder and the media search

`transcribe.py` walks a folder and collects the media files whose names end
with one of the configured extensions. For each file it builds a
`whisper_cpp` command line from the configuration file, and it either runs
that command or, in a dry run, only reports it. This project models three
pieces of that script and proves what they promise:

- **Extension parsing** (line 50). The `media_extensions` setting of the
  `General` section is split on commas, and each piece is stripped of
  surrounding whitespace. This is module `Extensions`, on top of the Python
  string operations in module `Text`.
- **The media search** (`find_media_files`, lines 106-115). The walk is given
  as the sequence of directories `os.walk` yields, each with its root path and
  its file names in listing order. `MediaSearch.FindMediaFiles` is the nested
  loop that appends joined paths. `MediaSearch.MediaFiles` is the function
  that specifies it.
- **The command builder** (`transcribe_file`, lines 63-92, up to the hand-off
  to the process runner).
  - `Transcribe.TranscribeFile` is the loop over the `WhisperParams` pairs that
    grows the command. It is proved equal to the function
    `Transcribe.BuildCommand`.
  - A dry run yields the space-joined line and nothing to execute.
  - The one error, `getboolean` raising `ValueError` on a value that is not a
    boolean, is modelled as a `Failure` result. It carries the offending value
    and ends the build.

A configuration section is an ordered sequence of (key, value) pairs (module
`Config`). `section.get(key, default)` and `section[key]` are a lookup in
it. `getboolean` is modelled as configparser's documented table:

- `1`, `yes`, `true` and `on` are true, in any letter case;
- `0`, `no`, `false` and `off` are false, in any letter case;
- anything else, the empty string included, raises.

The loop reads each value from the pair that `items()` yields, but
`getboolean(key)` looks the value up again by key. The two agree because
configparser refuses a section that repeats a key (`Config.UniqueKeys`,
`Config.LookupFindsStoredValue`).

Three facts about the code that are easy to miss:

- The dry-run line joins the tokens with single spaces. Splitting it on
  spaces gives the command back exactly when no token contains a space, so a
  `prompt` value or a file path with a space in it is not rendered faithfully
  (`Transcribe.DryRunLineRetokenizes`).
- `find_media_files` has no duplicate check of its own. It appends each file
  at most once, however many extensions the file matches, so its result
  repeats a path only if the walk does (`MediaSearch.MediaFilesDistinct`).
- An empty, blank or trailing-comma `media_extensions` setting yields the
  empty extension `""`. The empty extension matches every file, so such a
  setting selects every file of the folder
  (`MediaSearch.TrailingCommaSelectsEveryFile`,
  `MediaSearch.BlankSettingSelectsEveryFile`).

## Model

| member | source | states |
|---|---|---|
| `Text.Replace` | transcribe.py:77 | `key.replace('_', '-')` keeps the length, turns every underscore into a hyphen and leaves every other character in place, so no underscore is left |
| `Text.EndsWith` | transcribe.py:113 | `endswith` never holds for a suffix longer than the string, and always holds for the empty suffix and for the string itself |
| `Text.EndsWithIff` | transcribe.py:113 | a string ends with a suffix exactly when it is some string followed by that suffix |
| `Text.Strip` | transcribe.py:50 | `strip()` never lengthens a string, and its result has no whitespace at either end |
| `Text.StripDecomposes` | transcribe.py:50 | what `strip()` removes is whitespace only: the piece is the stripped text with whitespace before and after it |
| `Text.StripPadded` | transcribe.py:50 | `strip()` is pinned down by the previous row: any trimmed text padded with whitespace strips back to exactly that text |
| `Text.Split` | transcribe.py:50 | `split(",")` yields one piece more than there are commas, no piece holds a comma, and joining the pieces with commas gives the setting back |
| `Text.SplitJoin` | transcribe.py:50 | splitting undoes joining exactly when no joined part holds the separator (both directions) |
| `Text.JoinLength` | transcribe.py:91 | `" ".join(command)` holds every character of the tokens plus one separator between each two of them, and starts with the first token |
| `Config.Lookup` | transcribe.py:83 | a lookup misses exactly when no pair of the section has the key; a hit returns a value stored under that key |
| `Config.LookupFindsStoredValue` | transcribe.py:79 | in a section without repeated keys, `getboolean(key)` reads the very value `items()` yielded with that key |
| `Config.GetBoolean` | transcribe.py:79 | true exactly for 1/yes/true/on and false exactly for 0/no/false/off, in any letter case; every other value, the empty one included, raises; only spellings of one to five characters parse |
| `Config.GetBooleanIgnoresCase` | transcribe.py:79 | spellings that differ only in letter case parse the same way |
| `Transcribe.FlagName` | transcribe.py:77-80 | a flag is `--` followed by the key with underscores turned into hyphens, character for character; it is two longer than the key and holds no underscore |
| `Transcribe.ListContainsIff` | transcribe.py:75 | the front-to-back comparison `key in [...]` finds the key exactly when it is an element of the list |
| `Transcribe.IsValueKeyIff` | transcribe.py:75 | a key is forwarded with its value exactly when it is one of the ten listed keys |
| `Transcribe.KeyTokens` | transcribe.py:75-80 | a pair fails exactly when its key is not a value key and its value does not parse as a boolean, and the error then names that value; otherwise it yields as many tokens as its width (2, 1 or 0) |
| `Transcribe.KeyTokensByLookup` | transcribe.py:79 | in a section without repeated keys, `getboolean(key)` finds the value `items()` yielded with the key, so each pair's tokens or error are those of its own value |
| `Transcribe.ParamTokens` | transcribe.py:74-80 | the parameter loop completes exactly when every pair is a value key or has a boolean value |
| `Transcribe.ParamTokensFailure` | transcribe.py:74-80 | when the loop raises, the error names the value of the first pair that is neither a value key nor a boolean, and every earlier pair was fine |
| `Transcribe.ParamTokensPrefixFails` | transcribe.py:74-80 | once the pairs up to some point raise, the whole loop raises with the same error: later pairs are never reached |
| `Transcribe.ParamTokensLength` | transcribe.py:74-80 | the loop adds as many tokens as the pairs' widths add up to: 2 per non-empty value key, 1 per true flag, 0 otherwise |
| `Transcribe.ParamTokensAt` | transcribe.py:74-80 | pair i's tokens sit right after those of the pairs before it: `--key value` for a non-empty value key, `--key` for a true flag, so tokens keep the section's order |
| `Transcribe.ParamTokensOrigin` | transcribe.py:74-80 | every parameter token is the flag name of one of the keys or the non-empty value of a value key |
| `Transcribe.ParamTokensStep` | transcribe.py:74-80 | one more pair extends the tokens of the pairs before it by that pair's tokens, or raises its error |
| `Transcribe.OutputFormat` | transcribe.py:83 | without an `output_format` key the format is `txt`; otherwise it is the value stored under that key |
| `Transcribe.BuildCommand` | transcribe.py:71-87 | a command is built exactly when every pair can be forwarded, and otherwise fails with the parameter loop's error; a command starts with `./whisper_cpp` and ends with `-f` and the file path |
| `Transcribe.CommandLayout` | transcribe.py:71-87 | the command is `./whisper_cpp`, the parameter tokens, then `--output-<format>`, `-f` and the file path, 1 + widths + 3 tokens in all; without an `output_format` key the format token is `--output-txt` |
| `Transcribe.BuildCommandOutcome` | transcribe.py:71-87 | a failed build names the value of the first pair that cannot be forwarded, every earlier pair being fine |
| `Transcribe.DryRunLineRetokenizes` | transcribe.py:89-92 | the dry-run line split on spaces gives the command back exactly when no token holds a space |
| `Transcribe.ExtendCommand` | transcribe.py:75-80 | one pass of the loop grows the command by exactly the pair's tokens, or stops with its error |
| `Transcribe.TranscribeFile` | transcribe.py:63-92 | the loop's outcome is the built command: the error when a pair raises; otherwise the space-joined line in a dry run (nothing to execute) and the command itself otherwise |
| `Extensions.ParseExtensions` | transcribe.py:50 | one entry per comma-separated piece (commas + 1); entry i is piece i stripped; no entry holds a comma or surrounding whitespace |
| `Extensions.MediaExtensions` | transcribe.py:49-50 | `general["media_extensions"]` raises `KeyError` exactly when the key is missing; otherwise the entries are the parse of the stored setting |
| `Extensions.ParseExtensionsPieces` | transcribe.py:50 | each entry is its piece with only whitespace taken off the two ends |
| `Extensions.ParseExtensionsRoundTrip` | transcribe.py:50 | writing a list comma-separated and parsing it gives the list back when its entries hold no comma and no surrounding whitespace |
| `Extensions.TrailingCommaGivesEmptyExtension` | transcribe.py:50 | a setting ending in a comma yields the empty extension last |
| `Extensions.BlankSettingGivesEmptyExtension` | transcribe.py:50 | an empty or all-whitespace setting yields the single extension `""` |
| `MediaSearch.PathJoin` | transcribe.py:114 | `os.path.join(root, name)`: an absolute name replaces the root; otherwise exactly one `/` goes between a non-empty root not ending in `/` and the name, and nothing is inserted after an empty root or one ending in `/`; either way the result ends with the name |
| `MediaSearch.FindMediaFiles` | transcribe.py:106-115 | the nested loop returns exactly `MediaFiles(walk, exts)` |
| `MediaSearch.Matches` | transcribe.py:113 | `any` over no extensions is false, and every name matches once `""` is among the extensions |
| `MediaSearch.MatchesSome` | transcribe.py:113 | `any(name.endswith(ext) ...)` holds exactly when the name ends with some configured extension |
| `MediaSearch.SameExtensionsSameMatch` | transcribe.py:113 | whether a name matches depends only on which extensions are configured |
| `MediaSearch.MatchingInMembership` | transcribe.py:112-114 | a path is found in a directory exactly when it is the joined path of one of its files whose name matches |
| `MediaSearch.MediaFilesMembership` | transcribe.py:110-115 | a path is found exactly when some directory of the walk has a matching file whose joined path it is |
| `MediaSearch.MediaFilesAppend` | transcribe.py:111-114 | the paths found in a walk are those of its first directories followed by those of the rest: walk order is kept |
| `MediaSearch.MatchingInAppend` | transcribe.py:112-114 | within a directory, found paths keep the listing order |
| `MediaSearch.FoundPathsHaveExtension` | transcribe.py:113-114 | every found path ends with one of the extensions |
| `MediaSearch.MediaFiles` | transcribe.py:110-115 | each file contributes at most one path, so there are never more found paths than files; with no extensions nothing is found |
| `MediaSearch.MatchingIn` | transcribe.py:112-114 | a directory yields at most one path per file, and none when no extensions are configured |
| `MediaSearch.EmptyExtensionMatchesAll` | transcribe.py:113 | with `""` among the extensions, every file of the walk is found, in walk order |
| `MediaSearch.SameExtensionsSameFiles` | transcribe.py:110-115 | listing an extension twice, or in another order, finds the same paths |
| `MediaSearch.MediaFilesDistinct` | transcribe.py:110-115 | when the walk visits no path twice, no path is found twice |
| `MediaSearch.TrailingCommaSelectsEveryFile` | transcribe.py:50-52 | a `media_extensions` setting ending in a comma makes the search return every file of the walk |
| `MediaSearch.BlankSettingSelectsEveryFile` | transcribe.py:50-52 | an empty or blank `media_extensions` setting makes the search return every file of the walk |

## Left out

- Logging setup and every log call (lines 7-16 and throughout). They only produce output; a dry run's line is returned instead.
- `main` (lines 29-61): argument parsing, the `os.path.isdir` check, the "no media files" early return and the loop calling `transcribe_file` per file. Because nothing there catches the `ValueError`, the first file whose build fails ends the whole run. That loop is not modelled.
- Reading the configuration file (lines 18-27). Sections are given as ordered (key, value) pairs. configparser's lower-casing of keys, its merging of the `DEFAULT` section into `items()` and its value interpolation are not modelled. A missing `WhisperParams` or `General` section (a `KeyError`) is not modelled either.
- `os.walk` (line 111). The walk is given as its sequence of (root, file names) directories. Its traversal order, its handling of symbolic links and errors, and the directory names it also yields are outside the model.
- `subprocess.run` and the classification of its outcome (lines 94-103). This is execution of a foreign program. `Action.Execute` marks the hand-off.
- `dummy_logger.cpp` and `Whisper/source/dummy_tracing.h`: empty logging and tracing stubs with no behaviour.
- Config.GetBoolean: `str.lower()` is modelled on ASCII letters only. The answer is exact for the table, whose words are all ASCII. The only non-ASCII characters that lower-case to ASCII are U+212A (to `k`) and U+0130 (to `i` plus a combining mark). Neither `k` nor `i` occurs in the table.
- MediaSearch.PathJoin: only the two-argument `os.path.join` on POSIX is modelled, which is the only form the search uses.
- Transcribe.TranscribeFile: ends at the hand-off to the process runner. It does not state what the external program does.
