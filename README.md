# Screenshot time-lapse action: a Dafny model of its decision and staging logic

The action screenshots a URL in a headless browser, saves the image as
`{basename}_{epochMillis}.png` next to a `{basename}-latest.png` copy, and can then turn
every saved screenshot in the folder into an animated GIF. Around that browser and
encoder glue sit five small pieces of logic, which this project models and proves
properties of:

- **Run gate** (`Gate`). The gate decides whether this invocation takes a screenshot at all.
  The `auto_screenshots` input `"true"` always runs. Otherwise the newest commit that no
  automation bot made decides: the run happens if and only if its message contains
  `#screenshot`. A missing token, a failed history lookup, or a history of bot commits
  only gives "do not run". The commit listing is an injected `Option<seq<Commit>>`,
  where `None` stands for any exception in the lookup.
- **Frame names and selection** (`Frames`). This part covers the two names a capture writes and
  the capture itself. It also covers which folder entries become animation frames: every `.png`
  that is not a `-latest.png`, sorted as strings.
- **Labels** (`Labels`). The timestamp is read back out of a frame name with the pattern
  `_(\d+)\.png$`, with "No timestamp" as the fallback. The label is then escaped for
  ffmpeg's drawtext filter: `:` becomes `\:` and `'` becomes `\\'`.
- **Staging** (`Staging`). The selected frames are copied in order into a scratch directory
  as `img0000.png`, `img0001.png`, and so on. Each copy passes through ffmpeg, which burns
  the label in. At least two frames are needed.
- **Target resolution** (`Target`). When the URL mentions `localhost` and a host address
  was detected, every `localhost` is replaced by that address.

The folder and the scratch directory are `map<string, Bytes>`. The directory listing is
an injected `seq<string>` of folder entries, in whatever order the file system gives.
The date rendering is an injected `format: nat -> string`, because it depends on the
locale and the time zone. ffmpeg's drawtext step is an injected
`burn: (string, Bytes) -> Option<Bytes>`, where `None` means the process failed. `Strings`
holds the JavaScript string operations used, and `Order` holds the default order of
`Array.prototype.sort`.

Some consequences of the code that are easy to miss:

- The frames are sorted as strings, not by the epoch inside their names. For captures of
  one basename, timestamps of equal width sort in time order
  (`Frames.ScreenshotOrderSameWidth`). Across widths they need not: `home_1000.png` sorts
  before `home_999.png` (`Frames.SortIsNotTimestampOrder`). Captures of
  different basenames are ordered by the string order of the whole name, not by time.
- The selection does not look at `basename`. Every `.png` in the folder that is not a
  `-latest.png` is a frame, whatever its basename.
- The gate's automatic mode is the exact string `"true"`, not a boolean. `"TRUE"` goes to
  the commit check.
- GIF encoding is a single ffmpeg command; it is left out (see below).
- When ffmpeg fails while staging, the failure is thrown before the `try`/`finally` that
  removes the scratch directory. The partially filled scratch directory is therefore left
  behind. `Staging.Stage` returns it in its `BurnFailed` outcome.
- A capture writes the timestamped file and then copies it to the alias. It is not
  atomic.

## Model

| member | source | states |
|---|---|---|
| `Gate.DisplayName` | index.js:52-53 | defines the name looked at: the login if non-empty, else the name if non-empty, else the empty string |
| `Gate.IsBot` | index.js:54-59 | defines a bot commit: author or committer name contains `github-actions` or `[bot]` |
| `Gate.HasToken` | index.js:36-39 | defines a usable token with JavaScript truthiness: present and non-empty |
| `Gate.CommitGate` | index.js:51-78 | defines the commit check: there is a first non-bot commit and its message contains `#screenshot` |
| `Gate.Decide` | index.js:20-84 | defines the gate's answer: "true" runs; else a token and a successful lookup are needed and the commit check decides |
| `Gate.ShouldTakeScreenshot` | index.js:20-84 | the loop's answer equals `Decide`: "true" runs; otherwise a token and a successful lookup are needed, and the first non-bot commit's marker decides |
| `Gate.FirstHuman` | index.js:51-75 | finds nothing exactly when every commit is a bot's; otherwise finds a non-bot commit that only bot commits precede |
| `Gate.FirstHumanAt` | index.js:51-62 | a non-bot commit preceded only by bot commits is the one the scan stops at |
| `Gate.AutoAlwaysRuns` | index.js:22-25 | the input "true" runs, whatever the token and the history |
| `Gate.FailuresSkip` | index.js:36-39 | without the input "true", a missing or empty token, or a lookup that threw, never runs |
| `Gate.DecidedByFirstHuman` | index.js:64-74 | the commit gate holds iff the first non-bot commit's message contains `#screenshot` |
| `Gate.LaterCommitsIgnored` | index.js:68-74 | commits older than the first non-bot commit never change the answer |
| `Gate.BotsOnlySkip` | index.js:77-78 | a history of bot commits only, the empty one included, does not run |
| `Gate.GateExamples` | index.js:51-74 | a bot commit with the marker followed by a human commit without it does not run; a single human commit with the marker runs |
| `Strings.Contains` | index.js:56-59 | defines `includes`: the text occurs at some position of the string |
| `Strings.EndsWith` | index.js:91 | defines `endsWith`: the string's last characters are the suffix |
| `Strings.ReplaceAll` | index.js:118 | defines a global replace with a literal pattern: a left-to-right scan that replaces each non-overlapping occurrence |
| `Strings.ReplaceAllAbsent` | index.js:187 | a string without the pattern comes out of the global replace unchanged |
| `Strings.ReplaceAllPatternPrefix` | index.js:187 | with a non-empty replacement sharing no character with the pattern, an output prefix made of pattern characters was already a prefix of the input |
| `Strings.ReplaceAllRemovesPattern` | index.js:187 | with such a replacement, no occurrence of the pattern survives |
| `Strings.ReplaceCharAppend` | index.js:118 | a global replace of one character works on each half of a concatenation independently |
| `Strings.DigitsValue` | index.js:110 | defines `parseInt(s, 10)` of a digit string as its base-10 value |
| `Strings.Decimal` | index.js:211 | `String(n)` is a non-empty digit string without a leading zero |
| `Strings.DigitsValueOfDecimal` | index.js:110 | `parseInt` of `String(n)` is `n` |
| `Strings.DigitsValueLeadingZeros` | index.js:121 | zeros padded in front of a digit string do not change its value |
| `Strings.DecimalLength` | index.js:121 | a number below `10^k` prints with at most `k` digits |
| `Strings.PadStart` | index.js:121 | `padStart` gives length `max(width, len)` |
| `Strings.PadStartShape` | index.js:121 | the padded string ends with the original string and holds only the fill character before it |
| `Order.LexLess` | index.js:92 | defines the default sort order: character by character, a proper prefix first |
| `Order.LexLessTotal` | index.js:92 | any two different names are ordered one way or the other |
| `Order.LexLessTransitive` | index.js:92 | the sort order is transitive |
| `Order.LexLessDigits` | index.js:92 | for digit strings of equal length, the string order is the numeric order |
| `Order.Insert` | index.js:92 | inserting into a sorted sequence keeps it sorted and adds exactly the one element |
| `Order.SortStrings` | index.js:92 | the result is sorted and is a permutation of the input |
| `Order.SortedUnique` | index.js:92 | two sorted permutations of the same names are equal, so any correct sort gives this order |
| `Frames.IsFrameName` | index.js:91 | defines a frame: the name ends with `.png` and not with `-latest.png` |
| `Frames.ScreenshotName` | index.js:211 | defines a capture's name `{basename}_{stamp}.png` |
| `Frames.LatestName` | index.js:215 | defines the alias name `{basename}-latest.png` |
| `Frames.ScratchDirName` | index.js:101 | defines the scratch directory name `__ffmpeg_tmp_{stamp}__` |
| `Frames.FilterFrames` | index.js:91 | keeps each name that ends with `.png` and not `-latest.png`, as often as it was listed, and drops every other |
| `Frames.SelectFrames` | index.js:90-92 | the frames are sorted, are exactly the listed `.png` names that are not `-latest.png`, and are a permutation of those names |
| `Frames.SelectionIgnoresListingOrder` | index.js:87-92 | the order of the directory listing does not affect the selected sequence |
| `Frames.ScreenshotIsFrame` | index.js:211 | every `{basename}_{ts}.png`, of any basename, passes the frame filter |
| `Frames.LatestIsNotFrame` | index.js:215 | `{basename}-latest.png` never passes the frame filter |
| `Frames.ScratchDirIsNotFrame` | index.js:101 | scratch directories left in the folder by earlier runs are never frames |
| `Frames.ScreenshotOrderSameWidth` | index.js:92 | captures of one basename whose timestamps have equal width sort in timestamp order |
| `Frames.SortIsNotTimestampOrder` | index.js:92 | `home_1000.png` sorts before `home_999.png`: across widths the string order is not the time order |
| `Frames.Capture` | index.js:210-216 | the image lands under the timestamped name and under the distinct alias; every other entry is unchanged |
| `Labels.StampMatchAt` | index.js:107 | defines a match of `_(\d+)\.png$` whose `_` is at a given position: one or more digits between it and a final `.png` |
| `Labels.Label` | index.js:107-115 | defines a frame's label: the rendered timestamp when the name matches `_(\d+)\.png$`, else "No timestamp" |
| `Labels.EscapeLabel` | index.js:118 | defines the escape as two chained global replaces, `:` by `\:` and then `'` by `\\'` |
| `Labels.TrailingDigitCount` | index.js:107 | counts the maximal run of digits at the end of a string |
| `Labels.ParseStamp` | index.js:107 | a match it reports is a match of `_(\d+)\.png$`, and the group is the digits between `_` and `.png` |
| `Labels.ParseStampComplete` | index.js:107-109 | wherever the pattern matches, `ParseStamp` finds that same match |
| `Labels.ParseStampRoundTrip` | index.js:107 | a name `{basename}_{digits}.png` gives back exactly `digits` |
| `Labels.LabelOfScreenshot` | index.js:107-112 | the label of a capture renders the timestamp the capture was named with |
| `Labels.LabelWithoutStamp` | index.js:113-115 | a name the pattern does not match is labelled "No timestamp" |
| `Labels.DropBackslashesAppend` | index.js:118 | removing backslashes works on each half of a concatenation independently |
| `Labels.DropBackslashesNone` | index.js:118 | a text without backslashes is unchanged by removing them |
| `Labels.EscapeLabelIsEscapeEach` | index.js:118 | the two chained replaces escape each character on its own, as a one-pass escape would |
| `Labels.EscapeEachSafe` | index.js:118 | the one-pass escape puts `\` before every colon and `\\` before every quote, and changes nothing else |
| `Labels.EscapeLabelSafe` | index.js:118 | the label's escaping does the same; for a label without backslashes, removing them gives the label back |
| `Staging.PaddedIndex` | index.js:121 | defines `String(i).padStart(4, '0')` |
| `Staging.StagedName` | index.js:121 | defines the scratch name `img{padded index}.png` |
| `Staging.BurnedFrame` | index.js:106-127 | defines one ffmpeg call: the frame's bytes with its escaped label burned in, or a failure |
| `Staging.StagedDir` | index.js:106-129 | defines the scratch directory after `n` frames: the `i`-th burned frame under `StagedName(i)` for each `i < n` |
| `Staging.PaddedIndexValue` | index.js:121 | the zero-padded index is a digit string whose value is the index |
| `Staging.StagedNameInjective` | index.js:121 | distinct indices get distinct scratch names |
| `Staging.StagedNameOrder` | index.js:121 | below 10000 all scratch names have length 11 and sort in index order |
| `Staging.StagedNameAbsent` | index.js:121 | a later index's name is not among the earlier names |
| `Staging.StagedNamesExactly` | index.js:106-121 | the first `n` scratch names are `n` distinct names |
| `Staging.StagedNameIndex` | index.js:106-121 | each of the first `n` scratch names belongs to an index below `n` |
| `Staging.StagedDirNames` | index.js:106-129 | after `n` frames the scratch directory holds exactly the first `n` scratch names, one per frame |
| `Staging.StagedDirAt` | index.js:106-129 | the `i`-th selected frame, with its label burned in, is stored under the `i`-th scratch name |
| `Staging.SelectedInFolder` | index.js:87-92 | when every listed frame is an entry of the folder, so is every selected frame |
| `Staging.StageFiles` | index.js:106-129 | if every ffmpeg call succeeds, the result is the full staged directory; otherwise it stops at the first frame that fails, naming that frame, with exactly the earlier frames staged |
| `Staging.Stage` | index.js:87-98 | the selected frames are folder entries; with fewer than two of them nothing is staged, and otherwise staging them ends as `StageFiles` describes |
| `Target.Usable` | index.js:186 | defines the truthiness test on the detected address: present and non-empty |
| `Target.ResolveUrl` | index.js:183-194 | with `localhost` and a usable address, every occurrence is replaced; otherwise the URL is unchanged; an address sharing no character with `localhost` leaves none behind |
| `Target.GuardIsRedundant` | index.js:184-187 | without `localhost`, the replace alone would already leave the URL unchanged |
| `Target.SeamCanRebuildLoopback` | index.js:187 | an address that does not contain `localhost` can still produce one across the seam (`localhosthost` with `local`) |

## Left out

- The browser launch, navigation and screenshot are left out: rendering is an external capability. `Frames.Capture` receives the image bytes.
- The readiness wait (`waitOn`, 120 s timeout) is network I/O and timing.
- The host-IP detection (`ip route` through a shell) is left out. Its result is the `hostIp` parameter of `Target.ResolveUrl`.
- The commit listing (`github.context`, `getOctokit`, `listCommits` with `per_page: 10`) is a network client. Its result is the `history` parameter, and the length limit of 10 belongs to the provider.
- The GIF encoding command, the fps string `(1/parseFloat(frameDuration)).toFixed(2)` and the scale filter are left out. They are an external process and floating-point formatting.
- The deferred scratch cleanup (`setTimeout` and `rmSync`) is asynchronous timing.
- The logging and output facade (`core.info`, `core.warning`, `core.setOutput`, `core.setFailed`) and the top-level async wiring are left out. The model receives inputs after `core.getInput` has trimmed them.
- Date rendering (`new Date`, `toLocaleTimeString`) depends on the locale and the time zone. It is the `format` parameter.
- `Labels.LabelOfScreenshot`: does not model `parseInt` rounding above 2^53; `format` receives the exact value. The difference cannot show in a label: every value at or above 2^53 lies outside the `Date` range of ±8.64e15 ms, so the exact and the rounded value both render as an invalid date.
- `Target.ResolveUrl`: does not model the `$` substitution patterns of `String.prototype.replace`. It treats the address literally, which only matters if the address contains `$`.
- `Target.ResolveUrl`: proves "no `localhost` remains" only for an address that shares no character with `localhost`. "Does not contain `localhost`" is not enough (`Target.SeamCanRebuildLoopback`).
- `Order.LexLess`: compares characters by code point, while the engine's default sort compares UTF-16 code units. The two differ only for characters outside the Basic Multilingual Plane. `Order.SortStrings`, `Order.LexLessDigits` and `Frames.SelectFrames` inherit the difference.
- `Frames.SelectFrames`: sorts by `Order.LexLess`, so it shares that code-point difference.
- `Frames.Capture`: does not model a failure between the write and the copy, which would leave the timestamped file without an updated alias.
