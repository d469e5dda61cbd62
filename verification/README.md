# feedster tagging core, modelled in Dafny

feedster is a command-line tool. It reads a track list (CSV or spreadsheet),
fills in missing tags, tags and renames MP3 files, and writes a podcast feed.
This project models the pure logic behind that work and proves properties
about it. File-system results, the clock and external programs become plain
parameters.

The modules follow the program's files:

- `Tracks` (track.dfy) models track.go:
  - the `Track` record, with its fourteen column-tagged fields as an explicit registry (`Fields`, `Get`, `Set`);
  - the validity classifier `Error`/`IsValid`;
  - the `Duration` formatter;
  - `NormalizeFilename` and `SetCopyright`.
- `Rename` (rename.dfy) models track.go `NewName`, the rename-mask renderer:
  - `{key<format>}` tokens;
  - the `_` and `-` space markers;
  - the parse-or-fail dispatch on the last verb of the format;
  - replacement of every copy of the matched token text.
- `Cascade` (cascade.dfy) models main.go:
  - `normalizeTrack`, `preProcessTrack` and `setTrackDefaults`, the cascading-default resolver;
  - the first-pass loop that threads the previous track;
  - `totalDiscs`, `totalTracks`, the "n/total" numbers of `setTags`;
  - `validTracks`, `createdDate` and `updatedDate`.
- `Paths` (paths.dfy) models utils.go: `normalizeFilename`, `basename` (with Go's `path.Ext`) and `normalizeDirectory`.
- `GoStrconv` (strconv.dfy) and `GoStrings` (gostrings.dfy) are explicit, total models of the Go library functions the core calls: `strconv.ParseInt`/`Atoi`/`Itoa`/`ParseBool`, and `strings.Replace`/`TrimSuffix`/`TrimSpace`/`EqualFold`.
- `Wrappers` (wrappers.dfy) holds the `Option` type.

Parameters stand in for the outside world:

- `fmt.Sprintf` and `strconv.ParseFloat` inside `NewName` form a `Printer` parameter.
- The copyright mask is a function from year and artist to text.
- `os.Stat` is a function from a file name to a `FileInfo`, holding the modification time in nanoseconds, the size and the year.
- A `time.Time` is an integer count of nanoseconds since the Unix epoch.

Go's 64-bit integer arithmetic is written out where it matters: `Itoa(i + 1)` wraps around, and `/` and `%` truncate toward zero in `Duration`.

## Code versus intent

The model follows the code where the code and its own evident intent part ways:

- `setTrackDefaults` only inherits and defaults the fields listed in main.go:160-216. It does not derive a title from the file name or a description from the title.
- In the first loop of `main` (main.go:865-870), `lastTrack` advances over every row, including rows skipped for an empty file name. The second loop (main.go:876-884) skips invalid rows before it advances `lastTrack`, so only accepted rows become the predecessor there. The as-written first pass is `Cascade.FirstPass`; the intended one is `Cascade.FirstPassIntended` (see Findings).
- track.go:121-130 marks a row whose title is a skip word and whose other fields are empty as one to skip, but `preProcessTrack` fills those fields first (see Findings).
- A second `setTrackDefaults` call on its own output can change the track:
  - an explicit disc number that differs from the predecessor's resets the track number to "1" on every call;
  - a disc number that came from the configured default counts as a change of disc the second time.
  `Cascade.DefaultsIdempotentExactly` states exactly when a second call changes the track.
- `Processed` is never set by main.go, so the "processed" checks of `Error` apply only when the input sets it. The model keeps the flag as an input.
- `createdDate` starts from 2099-12-31T23:59:59.999999999Z and keeps the smaller value. A modification time after that instant is therefore never reported.
- main.go `normalizeTrack` overwrites `OriginalFilename` on every call. track.go `NormalizeFilename` keeps a recorded original. Both are modelled (`Cascade.NormalizeTrack`, `Tracks.NormalizeTrackFilename`).

## Model

| member | source | states |
|---|---|---|
| GoStrconv.ParseInt | track.go:236-239 | A sign followed by digits parses to the signed positional value of the digits when that fits in 64 bits, and otherwise is a range error clamped to the bound on the side of the sign; a value is returned only for such text; empty text after the sign, and a non-digit reached before the digits overflow, are syntax errors; digits that overflow before any non-digit are a range error |
| GoStrconv.ScanDigitsDecimal | track.go:236-239 | The digit loop reads a digit string as its positional value when that fits in 64 unsigned bits, and reports a range error otherwise |
| GoStrconv.ParseUintDecimal | track.go:236-239 | A non-empty digit string parses to its positional value, or to a range error above 2^64-1 |
| GoStrconv.ParseUintStops | track.go:236-239 | The digit loop stops with a syntax error at the first non-digit it reaches, and with a range error as soon as the digits read exceed 2^64-1, whatever follows |
| GoStrconv.Itoa | main.go:177 | The text is digits, with a leading `-` for a negative number, without leading zeros, and its signed positional value is the number |
| GoStrconv.AtoiValue | main.go:260 | With the error dropped, a parsed number is its signed positional value, a syntax error reads as 0 and an out-of-range number as its clamp |
| GoStrconv.ParseIntItoa | main.go:175-177 | Every 64-bit integer printed by `Itoa` parses back to itself |
| GoStrconv.ParseBool | track.go:230-233 | Exactly six spellings read as true and six as false; everything else is an error |
| GoStrconv.ParseBoolFormatBool | track.go:230-234 | A formatted boolean parses back to itself |
| GoStrings.ReplaceChar | track.go:250-255 | Every `from` becomes `to`, every other character is kept, and the length is unchanged |
| GoStrings.RemoveChar | track.go:218-225 | The marker character is gone and every other character is kept as often as it occurred |
| GoStrings.RemoveCharAppend | track.go:218-225 | Removal from a concatenation is the concatenation of the removals, so the kept characters stay in order |
| GoStrings.ReplaceAllAbsent | track.go:257 | A text that does not contain the pattern is unchanged by replacement |
| GoStrings.ReplaceAllLeftmost | track.go:257 | Text before the leftmost occurrence is copied, the occurrence becomes the replacement, and replacement continues after it |
| GoStrings.TrimSuffix | utils.go:21 | The result plus the suffix is the input whenever the input ends with the suffix; otherwise the input is returned |
| GoStrings.TrimSpace | track.go:104 | The result is a slice of the input framed by white space only, and neither starts nor ends with white space |
| GoStrings.TrimSpaceIdempotent | track.go:104 | Trimming twice is trimming once |
| GoStrings.EqualFoldLowerNames | track.go:81 | Two lower-case column names that fold to the same name are equal, so a name matches at most one column |
| Paths.NormalizeFilename | utils.go:117-121 | The normalised name is never longer than the input and is empty only for the empty input |
| Paths.NormalizeFilenameValid | utils.go:117-121 | A normalised name holds none of the ten invalid characters: angle brackets, double quote, pipe, question mark, asterisk, both slashes, colon and percent |
| Paths.NormalizeFilenameClean | utils.go:117-121 | A name without those characters is unchanged |
| Paths.NormalizeFilenameIdempotent | utils.go:117-121 | Normalising twice is normalising once |
| Paths.NormalizeFilenameRun | utils.go:119-120 | A maximal run of invalid characters after a clean prefix becomes exactly one `_`, and normalisation continues after the run |
| Paths.Ext | utils.go:20 | The extension is a suffix that starts with the final `.` of the last path element; it is empty exactly when that element has no `.` |
| Paths.Basename | utils.go:19-23 | The base name followed by the extension is the input; the base name is a prefix; a name whose last element has no `.` is unchanged |
| Paths.NormalizeDirectory | utils.go:110-115 | Outside Windows the directory is unchanged; on Windows every backslash becomes `/`, other characters and the length are kept, and no backslash remains |
| Tracks.SetField | track.go:105 | Storing a field sets that field and leaves every other field, tagged or not, as it was |
| Tracks.ColumnNameFacts | track.go:23-36 | Each column name leads back to its own field and is non-empty and lower case |
| Tracks.ColumnNameInjective | track.go:23-36 | Distinct fields have distinct column names |
| Tracks.LookupFrom | track.go:93-103 | The loop finds a field whose column name equals the name up to case, or reports that none from the given position does |
| Tracks.Lookup | track.go:73-83 | The field found is the one and only field whose column name equals the name up to case |
| Tracks.Fields | track.go:51-68 | Every column name maps to its field's value, and only column names are keys |
| Tracks.Get | track.go:71-88 | The value of the field named up to case; "" for a name that is no column |
| Tracks.Set | track.go:91-109 | A known name stores the trimmed value, touches no other field and answers true; an unknown name answers false and changes nothing |
| Tracks.SetThenGet | track.go:71-109 | Reading back a field just set by name gives the trimmed value |
| Tracks.Error | track.go:117-144 | An empty file name is the first error, and only that error; a named, unprocessed track that is not a skip marker has no error |
| Tracks.ErrorOrder | track.go:112-144 | Each verdict holds exactly when its own check fails and every earlier check passes; `IsValid` holds exactly when all checks pass |
| Tracks.SkipNeedsAllElevenEmpty | track.go:121-130 | A skip word as title skips the row exactly when all eleven other fields are empty; the subtitle never counts, and any one of the eleven cancels the skip |
| Tracks.DurationBoundary | track.go:137-139 | 0 ms and 1000 ms pass; anything strictly between is too short |
| Tracks.GoRem | track.go:149-154 | Go's remainder and truncating quotient recombine to the dividend |
| Tracks.DurationParts | track.go:147-165 | For a non-negative length, minutes and seconds lie in 0..59, and hours*3600 + minutes*60 + seconds equals the length in seconds rounded up |
| Tracks.Pad2 | track.go:167 | `%02d` gives at least two characters, and exactly two digits below 100 |
| Tracks.Pad2RoundTrip | track.go:167 | A two-digit field reads back as its number |
| Tracks.Duration | track.go:147-168 | For a non-negative length the text ends in `:mm:ss` |
| Tracks.DurationReadsBack | track.go:147-168 | Below 100 hours the text is `hh:mm:ss`, and its three fields read back as numbers with minutes and seconds below 60 and the rounded-up total in seconds |
| Tracks.NormalizeTrackFilename | track.go:171-177 | With an original name recorded nothing changes; otherwise the original is kept and the name is replaced by a shorter or equal one free of invalid characters, and a clean name is kept |
| Tracks.NormalizeTrackFilenameIdempotent | track.go:171-177 | Normalising the record twice is normalising it once |
| Tracks.SetCopyright | track.go:180-188 | An explicit copyright wins, otherwise the mask of year and artist; no other field changes |
| Rename.CloseFrom | track.go:198 | The `}` that ends a token is the first `}` after the key |
| Rename.FindTokenFrom | track.go:198-200 | The search finds the leftmost match of `{key[^}]*}` at or after a position, or none exists there |
| Rename.FindToken | track.go:198-203 | The match is the leftmost, ends at the first `}` after the key, and lies within the text; none is found exactly when no match exists |
| Rename.NoTokenWithoutOpening | track.go:200-203 | A mask without `{key` has no token for that key |
| Rename.PlainFormat | track.go:213-225 | The format loses its markers and keeps the rest in order; the empty format becomes `%s`; the plain format is empty exactly when, as written, a non-empty format is made only of markers |
| Rename.MarkersOnly | track.go:218-225 | Removing both markers leaves nothing exactly when the format is made only of `_` and `-` |
| Rename.ApplyMarkers | track.go:250-255 | With `_` the spaces become `_`, otherwise with `-` they become `-`; with a marker no space is left; the length is kept |
| Rename.RenderField | track.go:213-256 | Rendering panics exactly when the format is empty once the markers are removed; errors carry the key and the value; a successful parse for the verb gives the printer's text of the parsed value with the markers applied, and no space is left when the format holds a marker |
| Rename.RenderFieldParseFailures | track.go:228-249 | A `t` verb fails exactly when ParseBool fails; an integer verb fails exactly when ParseInt fails; other non-float verbs always render |
| Rename.NewName | track.go:191-194 | The empty mask gives the current file name |
| Rename.NewNameNoTokens | track.go:197-203 | A mask without any `{key` opening is returned unchanged |
| Rename.NewNameFirstTokenFails | track.go:228-246 | When the first field with a token fails or panics, the whole result is that failure and no partial name |
| Rename.FirstTokenDecides | track.go:197-249 | The first visited field that has a token decides the outcome when it does not render |
| Rename.RenderKeys | track.go:197-258 | The loop over the fields; its steps are stated by `Rename.RenderKeysSkip` and `Rename.TokenReplacement` and its failures by `Rename.RenderKeysBlamesField` |
| Rename.RenderKeysBlamesField | track.go:228-246 | A panic or an error of the loop names one of the visited fields, and an error carries that field's value |
| Rename.RenderKeysSkip | track.go:200-203 | Fields without a token leave the name as it is |
| Rename.TokenReplacement | track.go:257 | Replacing the token text keeps the text before the leftmost token, inserts the rendering, and replaces later copies of the same text |
| Rename.OccurrenceIsToken | track.go:257 | Each copy of a token's text is itself a token for the same key |
| Rename.RenderKeysNeverPanics | track.go:213-226 | With the `%s` default applied after the markers are removed, rendering never panics |
| Rename.NewNameIntended | track.go:213-226 | The corrected renderer keeps the empty-mask rule and never panics |
| Rename.UnderscoreOnlyFormat | track.go:213-226 | The format `_` panics as written; with the corrected default it renders the value with spaces turned into `_` |
| Rename.TitleUnderscoreMaskPanics | track.go:213-226 | As written, the mask `{title_}` panics whatever the track holds |
| Rename.TitleUnderscoreMaskIntended | track.go:213-226 | Corrected, `{title_}` renders the title with its spaces turned into `_` |
| Rename.PlainTitleMask | track.go:191-261 | The mask `{title}` renders the title as it is |
| Cascade.NextTrackNo | main.go:174-179 | A parsable predecessor number gives the text `Itoa` writes for the next number, which reads back as that number, wrapping from the largest 64-bit value to the smallest; an unparsable one gives nothing |
| Cascade.NewDisc | main.go:183-189 | An explicit disc number that differs from the predecessor's; its effect on the numbering is stated by `Cascade.DefaultsDiscChange` |
| Cascade.SetTrackDefaults | main.go:160-216 | A track without a title is refused and unchanged; otherwise only the artist, album artist, number, disc, album title, copyright, genre and year can change |
| Cascade.DefaultsKeepGiven | main.go:160-216 | No field set on entry is overwritten, except the number on a change of disc |
| Cascade.DefaultsNumbering | main.go:174-182 | On the same disc an unset number becomes the `Itoa` text of the predecessor's number plus one when that parses, and the configured first number when it does not |
| Cascade.DefaultsDiscChange | main.go:183-189 | An explicit disc number different from the predecessor's forces number "1", also for the first track after the empty record |
| Cascade.DefaultsFallbacks | main.go:164-213 | Each empty field takes the predecessor's value, then its default: album artist from the artist, disc from the configuration, copyright from the configuration and then the mask |
| Cascade.DefaultsYearFromFile | main.go:211-216 | A year taken from the file's modification time reads back as that year |
| Cascade.DefaultsComplete | main.go:160-216 | After a successful call, number, disc, copyright and year are all set when the defaults are set |
| Cascade.DefaultsIdempotentExactly | main.go:183-192 | A second resolution changes the track exactly when its default disc number reads as a change of disc and its number is not "1" |
| Cascade.NumberingExample | main.go:174-192 | After track "3" of disc "1", a track with neither set becomes track "4" of disc "1" |
| Cascade.NormalizeTrack | main.go:123-158 | The current name becomes the original name and is replaced by its normalised form; a clean name is kept; nothing else changes |
| Cascade.NormalizeTrackTwice | main.go:123-126 | Normalising twice records the normalised name as the original, losing the row's name when it had invalid characters |
| Cascade.PreProcessTrack | main.go:374-393 | A row without a file name is unchanged; any other gets a clean non-empty name, its original name, and the stat results of the new name, and keeps title, subtitle and flag |
| Cascade.PreProcessKeepsNamePresence | main.go:374-378 | Pre-processing never changes whether a row lacks its file name |
| Cascade.FirstPassFrom | main.go:865-870 | The first loop from a given predecessor gives one result per row; the results are stated row by row by `Cascade.FirstPassFromIndex` and `Cascade.FirstPassRow` |
| Cascade.FirstPass | main.go:865-870 | The first loop from the empty record gives one result per row |
| Cascade.FirstPassRow | main.go:374-393 | In the first loop a row without a file name is left as it is, and every other row gets a non-empty name, keeps its title and records its own name as the original |
| Cascade.FirstPassFromIndex | main.go:865-870 | Each row is pre-processed against the previous result, and the first row against the given predecessor |
| Cascade.FirstPassIndex | main.go:865-870 | The predecessor of every row is the entry just before it, starting from the empty record, even when that entry was skipped |
| Cascade.SkipRowValidAfterPreProcess | main.go:374-392 | As written, a row marked to be skipped is valid once pre-processed |
| Cascade.FirstPassBlankRowRestartsNumbering | main.go:865-870 | As written, after a blank row the numbering restarts at the configured first number |
| Cascade.FirstPassIntendedFrom | main.go:865-870 | In the intended pass a row the classifier rejects is kept as it is |
| Cascade.FirstPassIntended | main.go:865-870 | In the intended pass rows marked to be skipped stay marked |
| Cascade.FirstPassIntendedDropsRejected | main.go:865-870 | In the intended pass, removing a rejected row changes no other result |
| Cascade.MaxOver | main.go:251-266 | The running maximum is at least the start, bounds every counted value, and is the start or some counted value |
| Cascade.MinOver | main.go:732-747 | The running minimum is at most the start, below every counted value, and is the start or some counted value |
| Cascade.TotalDiscs | main.go:251-266 | The total is between 0 and the largest 64-bit value, no valid disc number exceeds it, and it is 0 or one of them |
| Cascade.TotalTracks | main.go:268-286 | The same for the track numbers of the valid tracks on the given disc |
| Cascade.NumberWithTotal | main.go:295-303 | The number is always a prefix, and something is appended exactly when the flag is on, the number is set and the total is positive |
| Cascade.NumberWithTotalReadsBack | main.go:295-303 | After the number comes `/` and text that reads back as the total |
| Cascade.TagNumbers | main.go:288-303 | The written disc and track numbers begin with the track's own disc and number |
| Cascade.TagNumbersCoverOwnNumber | main.go:268-303 | A valid numbered track is written as "n/total" with a total no smaller than its own number |
| Cascade.ValidTracks | main.go:764-772 | The count is the number of positions holding a valid track; so it is at most the list length, equals it exactly when all are valid, and is 0 exactly when none is |
| Cascade.CountOver | main.go:764-772 | The count is at most the list length, equals it exactly when every entry counts, and is 0 exactly when none does |
| Cascade.CountOverPositions | main.go:764-772 | The count is the number of positions whose entry counts |
| Cascade.ValidTracksAppend | main.go:764-772 | The count of a concatenation is the sum of the counts of its parts |
| Cascade.CreatedDate | main.go:732-747 | The created date is no later than the end of 2099, no later than any valid track's time, and either that sentinel or one of those times |
| Cascade.UpdatedDate | main.go:749-762 | The updated date is no earlier than Go's zero time, no earlier than any valid track's time, and either the zero time or one of those times |
| Cascade.FeedDatesWithoutTracks | main.go:732-762 | Without a valid track the created date is the end-of-2099 sentinel and the updated date is Go's zero time |
| Cascade.FeedDatesWithTrack | main.go:732-762 | With a valid track no earlier than Go's zero time, the updated date is the time of some valid track and is not before the created date |

## Left out

- File-system and process I/O is not modelled. This covers the rename, stat and Chtimes calls of `normalizeTrack`, `preProcessTrack` and `processTrack`, `copyFile`/`copyFileContents`, and the `log.Fatalf` paths after a failed stat or rename. `os.Stat` is a parameter that is assumed to succeed.
- Cascade.PreProcessTrack: keeps the row's duration. The source overwrites it with the reading of ffprobe inside `setTrackDefaults` (main.go:218-232) and exits through `log.Fatalf` when ffprobe fails (main.go:220-222); neither is modelled.
- Cascade.SetTrackDefaults: the ffprobe run at main.go:218-247 that sets the duration is not modelled. It runs an external program, and its `track.Duration = …` assignment does not compile against track.go. The duration is an input.
- The second pass `processTrack` is not modelled. It writes ID3 frames and the cover image, so it is library I/O. Only its repeated `normalizeTrack` call is covered, by `Cascade.NormalizeTrackTwice`.
- Feed assembly (`setDefaults`, `setPodcast`, `addTrack`, XML encoding), image decoding, CSV/XLS/YAML loading, `loadDefaults` and `main` are not modelled. They are wrappers around libraries.
- `bCF47ToISO3` and the exiftool/ffmpeg duration probes of utils.go are not modelled. They are a language-library lookup and external processes.
- main.go's stale `newName` (main.go:511-590) is not modelled. It is superseded by track.go `NewName`.
- log_windows.go, podcast/author.go and version/version_test.go are not modelled. They hold terminal set-up, a plain struct and build-constant tests.
- Rename.NewName: Go visits the fields of `Fields()` in an unspecified map order. The model fixes struct declaration order and claims nothing about other orders.
- Rename.RenderField: `fmt.Sprintf` and `strconv.ParseFloat` are parameters, so the printed text of a value and the float grammar are not modelled; the contract states the text in terms of the printer.
- Tracks.Lookup: `strings.EqualFold` is modelled with ASCII case folding only. Go also folds, for example, the Kelvin sign U+212A to `k`, which would let `tracK` name the `track` column.
- Tracks.Get: the same ASCII-only folding as `Tracks.Lookup`.
- Tracks.Set: the same ASCII-only folding as `Tracks.Lookup`. `TrimSpace` removes only the white space of Latin-1, not the other Unicode spaces Go also trims.
- GoStrings.TrimSpace: Unicode white space above U+00FF is not treated as space.
- Tracks.Duration: for a negative length the Go arithmetic is modelled, but no property is stated.
- Cascade.CreatedDate: a `time.Time` is an instant in nanoseconds; its location and monotonic reading do not affect `After`/`Before` and are not modelled.
- Cascade.UpdatedDate: the same representation of time as `Cascade.CreatedDate`.

## Findings

| source | as written | input that shows it | evidently intended | confidence | as-written member | corrected member |
|---|---|---|---|---|---|---|
| track.go:213-226 | `%s` replaces an empty format only before the `_`/`-` markers are removed, and `format[len(format)-1:]` then slices an empty string | the mask `{title_}` | apply the default after the markers are removed, so `{title_}` renders the title with underscores | high, not executed | Rename.TitleUnderscoreMaskPanics | Rename.TitleUnderscoreMaskIntended |
| main.go:374-392 | `preProcessTrack` resolves every row with a file name, so `setTrackDefaults` fills the year and number of a row whose title is a skip word | a row with file name `a.mp3`, title `skip` and every other field empty | a row marked to be skipped stays skipped, as track.go:121-130 intends | high, not executed | Cascade.SkipRowValidAfterPreProcess | Cascade.FirstPassIntended |
| main.go:865-870 | `lastTrack = track` runs for every row, including a row skipped for its empty file name | rows `A` (track "7"), a blank row, then `C` with only file name and title: `C` gets the configured track "1" instead of "8" | only accepted rows become the predecessor | medium, not executed | Cascade.FirstPassBlankRowRestartsNumbering | Cascade.FirstPassIntendedDropsRejected |
