# QXdg desktop entries and standard paths, modelled in Dafny

This project models the two parts of the QXdg library that do the real work.

The first is the **desktop entry reader** (`qxdg/qxdgdesktopentry.cpp`), for files in the
freedesktop.org Desktop Entry format. It has five parts:

- a byte classifier and a single-pass line reader;
- a splitter that cuts the file into `[Group]` ranges;
- a lazy group store that parses a group's `key=value` lines the first time the group is consulted;
- the document API, with its load status, lookups, localized lookups and updates;
- the table-driven escape codec used for string values and for the Exec key.

The second is the **standard path derivation** (`qxdg/qxdgstandardpath.cpp`). It follows the
XDG Base Directory Specification 0.8 ("Environment variables") and xdg-user-dirs. It covers:

- the home and search directories;
- the KDE Frameworks resource directories;
- the `user-dirs.dirs` line rules;
- the `standardLocations` dispatch.

The parts that change state are imperative Dafny:

- the line reader, the splitter loop and the unescape loop are methods with loop invariants;
- the group objects and the document are classes whose methods update their fields.

Each method is proved equal to a declarative specification function. The properties the
source promises are then proved about those functions:

- last assignment wins;
- one map entry per distinct header name;
- the first error sticks;
- the escape round trips;
- first-occurrence de-duplication;
- the bounds of the line reader.

Files (one module each):

| file | module | what |
|---|---|---|
| `bytes.dfy` | `Bytes` | bytes, the traits table, `trimmed` |
| `wrappers.dfy` | `Wrappers` | `Option` |
| `strings.dfy` | `Strings` | `indexOf` on bytes and characters, `startsWith` |
| `order.dfy` | `Order` | the byte-wise order of `QMap` keys |
| `tokenizer.dfy` | `Tokenizer` | `readLineFromData` and its specification `NextLine` |
| `section.dfy` | `SectionStore` | `QXdgDesktopEntrySection` and the group parse `Parse` |
| `splitter.dfy` | `Splitter` | the group map `Groups` that `initSectionsFromData` builds |
| `entry.dfy` | `DesktopEntry` | status, loading and the public operations (`Document`) |
| `escape.dfy` | `EscapeCodec` | `doEscape`/`doUnescape` and the four wrappers |
| `standardpath.dfy` | `StandardPath` | `qxdgstandardpath.cpp` |

Inputs from the outside world are parameters of the model:

- the file (`FileState`: whether it exists, whether it opens, its bytes);
- the environment (`Env`: `HOME` and the five `XDG_*` variables);
- the process and system locale names;
- `QDir::cleanPath` and `QDir::exists` (as functions `clean` and `isDir`);
- the lines of `user-dirs.dirs` (`Option<seq<string>>`; `None` when the file does not open).

## Model

| member | source | states |
|---|---|---|
| `Bytes.CharTraits` | qxdg/qxdgdesktopentry.cpp:31-54 | every table entry is a combination of the Space and Special bits |
| `Bytes.TraitBits` | qxdg/qxdgdesktopentry.cpp:31-54 | Space is exactly TAB, LF, CR and space; Special is exactly LF, CR, `"`, `#`, `;`, `=` and backslash |
| `Bytes.Trim` | qxdg/qxdgdesktopentry.cpp:184-185 | `trimmed` returns the infix left after removing the white bytes (TAB, LF, VT, FF, CR, space) at both ends; the result neither starts nor ends with one |
| `Strings.IndexOf` | qxdg/qxdgdesktopentry.cpp:331 | `indexOf(c, from)`, on bytes and on characters alike, is -1 or the first index at or after `from` holding `c` |
| `Tokenizer.NextLine` | qxdg/qxdgdesktopentry.cpp:56-122 | the old cursor is at most `lineStart`, and `lineStart + lineLen` is the new cursor, at most the length; a line is found iff `lineLen > 0`; when none is found, `lineStart` and the cursor are the length (the caller's assertion at line 344); `equalsPos` is -1 or an `=` inside the line; a line never starts with LF, CR or `#` and ends at the end of the data or before a terminator |
| `Tokenizer.EscapedByteHidden` | qxdg/qxdgdesktopentry.cpp:85-94 | a backslash takes the next byte, and a CR-LF or LF-CR pair after it, into its unit; an escaped terminator does not end the line and an escaped `=` is not the line's `=` |
| `Tokenizer.EqualsFirstPlain` | qxdg/qxdgdesktopentry.cpp:68-77 | with no backslash or quote before it, `equalsPos` is the first `=` of the line |
| `Tokenizer.LineEndFirstPlain` | qxdg/qxdgdesktopentry.cpp:68-114 | with no backslash or quote before it, the line ends at the first LF, CR or `#` |
| `Tokenizer.SkipComment` | qxdg/qxdgdesktopentry.cpp:106-110 | the comment loop stops at the first LF or CR, or at the end |
| `Tokenizer.SkipEscaped` | qxdg/qxdgdesktopentry.cpp:85-94 | the backslash branch skips one byte, then a CR-LF/LF-CR pair as a whole |
| `Tokenizer.ReadLineFromData` | qxdg/qxdgdesktopentry.cpp:56-122 | the scan with its `goto` exits returns exactly `NextLine` of the data and the cursor |
| `SectionStore.LineEntries` | qxdg/qxdgdesktopentry.cpp:181-188 | a line gives at most one assignment, and none exactly when it starts with `[` or has no `=` |
| `SectionStore.AssignConcat` | qxdg/qxdgdesktopentry.cpp:180-189 | assigning the lines of two stretches of a group in turn is assigning them all |
| `SectionStore.AssignKeys` | qxdg/qxdgdesktopentry.cpp:183-188 | a key is in the parsed map iff some line assigns it |
| `SectionStore.AssignLastWins` | qxdg/qxdgdesktopentry.cpp:187 | the value of a key is the value of the last line that assigns it; a key no line assigns keeps its earlier value |
| `SectionStore.ParseEmpty` | qxdg/qxdgdesktopentry.cpp:170 | a group without raw bytes parses to the empty map |
| `SectionStore.Section.constructor` | qxdg/qxdgdesktopentry.cpp:313-318 | a committed group holds its name and raw bytes and no parsed values |
| `SectionStore.Section.Copy` | qxdg/qxdgdesktopentry.cpp:366-367 | the const `QMap` lookup hands out a fresh object with the same name, values and raw bytes |
| `SectionStore.Section.EnsureSectionDataParsed` | qxdg/qxdgdesktopentry.cpp:169-194 | afterwards the raw bytes are empty and the parsed map is what the group held (the parse of the raw bytes, or the map already there); so a second call changes nothing |
| `SectionStore.Section.Contains` | qxdg/qxdgdesktopentry.cpp:196-199 | true iff the group holds the key; the group is left parsed |
| `SectionStore.Section.Get` | qxdg/qxdgdesktopentry.cpp:201-207 | the key's value, or the default when the key is absent |
| `SectionStore.Section.Set` | qxdg/qxdgdesktopentry.cpp:209-215 | the new map is the old one with only that key overwritten; always true |
| `Splitter.HeaderName` | qxdg/qxdgdesktopentry.cpp:324-341 | a header is well formed iff its line holds a `]`; its name is the trimmed text between `[` and the first `]`, or the trimmed rest of the line when there is none |
| `Splitter.HeadersFrom` | qxdg/qxdgdesktopentry.cpp:322-342 | the header lines the reader returns are in ascending order of position and each starts with `[` |
| `Splitter.GroupsByLastHeader` | qxdg/qxdgdesktopentry.cpp:313-346 | the group map has a key iff the key is non-empty and some header has that name; its bytes run from the last header of that name up to the next header or the end of the data |
| `Splitter.GroupEntriesShape` | qxdg/qxdgdesktopentry.cpp:326-327 | every committed group has a non-empty name and bytes that start with its header's `[`, so lines before the first header are dropped |
| `DesktopEntry.NextStatus` | qxdg/qxdgdesktopentry.cpp:353-358 | NoError always clears; an error replaces only NoError; otherwise the status is kept |
| `DesktopEntry.FirstErrorSticks` | qxdg/qxdgdesktopentry.cpp:352-358 | over any run of error reports, starting clear, the first error is the one kept |
| `DesktopEntry.Parsed` | qxdg/qxdgdesktopentry.cpp:236 | the parsed document has one group per group of the split map |
| `DesktopEntry.LookupAfterWrite` | qxdg/qxdgdesktopentry.cpp:389-397 | after a write to an existing key, reading that key gives the new value and every other read is unchanged |
| `DesktopEntry.Localized` | qxdg/qxdgdesktopentry.cpp:457-466 | `key[locale]` is the key, `[`, the locale and `]` |
| `DesktopEntry.FirstMatchFirst` | qxdg/qxdgdesktopentry.cpp:471-476 | the first candidate key the group holds gives the value |
| `DesktopEntry.FirstMatchNone` | qxdg/qxdgdesktopentry.cpp:471-478 | when the group holds no candidate key, the default is returned |
| `DesktopEntry.SampleLocalizedNames` | QXdgTest/tst_qxdgdesktopentrytest.cpp:83-96 | on a group with the sample's `Name` and `Name[zh_CN]`: `zh_CN` gives 福查看器, `empty` gives "Foo Viewer", the default locale `zh_CN` gives 福查看器 and the default locale `C` gives "Foo Viewer" |
| `DesktopEntry.Document.SetStatus` | qxdg/qxdgdesktopentry.cpp:353-358 | the new status is `NextStatus` of the old one; the groups are unchanged |
| `DesktopEntry.Document.Contains` | qxdg/qxdgdesktopentry.cpp:360-371 | true iff the group exists and holds the key |
| `DesktopEntry.Document.Get` | qxdg/qxdgdesktopentry.cpp:373-387 | true iff the group holds the key; then the value is the stored one, else the given value is returned unchanged; no group's contents change |
| `DesktopEntry.Document.Set` | qxdg/qxdgdesktopentry.cpp:389-408 | true iff the group exists and holds the key; then only that key is overwritten, else nothing changes |
| `DesktopEntry.Document.ReadSectionName` | qxdg/qxdgdesktopentry.cpp:330-338 | the name and the closed flag are those of `HeaderOf` |
| `DesktopEntry.Document.CommitSection` | qxdg/qxdgdesktopentry.cpp:313-318 | the named group is replaced by a fresh one holding the byte range; the other groups are kept |
| `DesktopEntry.Document.InitSectionsFromData` | qxdg/qxdgdesktopentry.cpp:300-350 | the groups are exactly the split map `Groups` of the data, all unparsed; the result is false iff some header has no `]` |
| `DesktopEntry.Document.CommittedContents` | qxdg/qxdgdesktopentry.cpp:300-350 | a freshly split document holds the parse of each group's bytes |
| `DesktopEntry.Document.FuzzyLoad` | qxdg/qxdgdesktopentry.cpp:275-298 | an existing unopenable file reports AccessError through setStatus and gives false, and the groups are kept; a non-empty readable file is split; a missing header `]` reports FormatError and gives false but keeps the groups read; a missing or empty file changes nothing |
| `DesktopEntry.Document.constructor` | qxdg/qxdgdesktopentry.cpp:244-248 | a new document is loaded from its file, starting from NoError |
| `DesktopEntry.Document.AllGroups` | qxdg/qxdgdesktopentry.cpp:422-427 | the group names, each once, in strictly ascending order |
| `DesktopEntry.Document.Value` | qxdg/qxdgdesktopentry.cpp:429-439 | an empty key or group gives the default; otherwise the stored value or the default |
| `DesktopEntry.Document.LocalizedValue` | qxdg/qxdgdesktopentry.cpp:441-479 | an empty key or group gives the default; otherwise the value of the first candidate the group holds: the requested variant (`key` for `empty`, `key[process locale]` for `default`, `key[system locale]` for `system`, else `key[localeKey]`), then `key[C]` twice, then `key` |
| `DesktopEntry.Document.SetValue` | qxdg/qxdgdesktopentry.cpp:481-491 | true iff the key and group are non-empty and the key exists; then only it is overwritten, else nothing changes |
| `DesktopEntry.Document.SetLocalizedValue` | qxdg/qxdgdesktopentry.cpp:493-505 | the same for the key `key[localeKey]`, or `key` when the locale is empty |
| `EscapeCodec.Find` | qxdg/qxdgdesktopentry.cpp:147-148 | the table lookup: -1, or the first entry whose key is the character |
| `EscapeCodec.ReplaceBackslash` | qxdg/qxdgdesktopentry.cpp:126-127 | doubling every backslash is the escape pass over the empty table |
| `EscapeCodec.DoEscape` | qxdg/qxdgdesktopentry.cpp:124-137 | the string after the backslash doubling and one replacement per table key is the single-pass escape `Escaped`, whatever the order of the keys |
| `EscapeCodec.DoUnescape` | qxdg/qxdgdesktopentry.cpp:139-155 | the in-place scan gives the single-pass unescape `Unesc` |
| `EscapeCodec.UnescNoEscape` | qxdg/qxdgdesktopentry.cpp:143-145 | a string with no backslash before its last character is left unchanged |
| `EscapeCodec.UnescTrailingBackslash` | qxdg/qxdgdesktopentry.cpp:144-145 | a trailing lone backslash is kept |
| `EscapeCodec.UnescLength` | qxdg/qxdgdesktopentry.cpp:147-149 | the result is shorter than the input by exactly the number of replacements |
| `EscapeCodec.UnescEscaped` | qxdg/qxdgdesktopentry.cpp:124-155 | unescaping with a table that inverts the escape table restores every string |
| `EscapeCodec.Escape` | qxdg/qxdgdesktopentry.cpp:512-520 | `escape` is the escape pass over LF, TAB and CR, and its output has no LF, TAB or CR |
| `EscapeCodec.EscapeNoControls` | qxdg/qxdgdesktopentry.cpp:512-520 | the output of `escape` holds no LF, TAB or CR |
| `EscapeCodec.EscapeExec` | qxdg/qxdgdesktopentry.cpp:541-553 | `escapeExec` is the escape pass over `"`, `'`, backslash and `$` |
| `EscapeCodec.Unescape` | qxdg/qxdgdesktopentry.cpp:560-570 | `unescape` is the unescape pass over `\\`, `\s`, `\n`, `\t` and `\r` |
| `EscapeCodec.UnescapeExec` | qxdg/qxdgdesktopentry.cpp:611-640 | `unescapeExec` is `unescape`, then the unescape pass over the Exec table, with markers 1, 2 and 3 for space, tab and newline |
| `EscapeCodec.EscapeRoundTrip` | qxdg/qxdgdesktopentry.cpp:512-570 | `unescape(escape(s)) == s` for every `s` free of LF, TAB and CR |
| `EscapeCodec.EscapeExecRoundTrip` | qxdg/qxdgdesktopentry.cpp:541-640 | `unescapeExec(escapeExec(s)) == s` for every `s` without a backslash |
| `EscapeCodec.EscapeLosesNewline` | qxdg/qxdgdesktopentry.cpp:133 | `escape` of a newline is a backslash, a backslash and `n`, which `unescape` reads back as a backslash and `n` |
| `EscapeCodec.EscapeCorrected` | qxdg/qxdgdesktopentry.cpp:507-520 | with one backslash before the letter, `unescape` undoes `escape` on every string |
| `EscapeCodec.EscapeExecLosesBackslash` | qxdg/qxdgdesktopentry.cpp:541-553 | `escapeExec` of two backslashes is four, which `unescapeExec` reads back as one |
| `EscapeCodec.ExecTablesInvert` | qxdg/qxdgdesktopentry.cpp:618-637 | the Exec table reads back each of `"`, `'`, backslash and `$` |
| `EscapeCodec.CorrectedExecRoundTrip` | qxdg/qxdgdesktopentry.cpp:533-539 | the quoting rule followed by the string escape rule is undone by `unescapeExec` on every string |
| `EscapeCodec.ExecAsCorrected` | qxdg/qxdgdesktopentry.cpp:541-553 | on strings without backslashes, `escapeExec` as written agrees with the two-stage quoting |
| `EscapeCodec.EscapeExecCorrected` | qxdg/qxdgdesktopentry.cpp:533-553 | the two-stage quoting (a backslash becomes four), which `unescapeExec` undoes on every string |
| `StandardPath.XdgConfigHomeDir` | qxdg/qxdgstandardpath.cpp:30-39 | `XDG_CONFIG_HOME`, or home + `/.config` when it is empty |
| `StandardPath.XdgCacheHomeDir` | qxdg/qxdgstandardpath.cpp:41-50 | `XDG_CACHE_HOME`, or home + `/.cache` when it is empty |
| `StandardPath.XdgDataHomeDir` | qxdg/qxdgstandardpath.cpp:97-105 | `XDG_DATA_HOME`, or home + `/.local/share` when it is empty |
| `StandardPath.Split` | qxdg/qxdgstandardpath.cpp:60 | `split(':')` keeps empty parts: at least one part, none holding `:`, and joining them gives the input back |
| `StandardPath.SplitJoin` | qxdg/qxdgstandardpath.cpp:60 | splitting the join of parts without `:` gives the parts back |
| `StandardPath.XdgConfigDirs` | qxdg/qxdgstandardpath.cpp:52-63 | `["/etc/xdg"]` for an empty value, otherwise the value split on `:` with empty parts kept |
| `StandardPath.NonEmpty` | qxdg/qxdgstandardpath.cpp:74 | `SkipEmptyParts` keeps exactly the non-empty parts |
| `StandardPath.Normalized` | qxdg/qxdgstandardpath.cpp:76-84 | the result holds exactly the cleaned forms of the entries starting with `/` |
| `StandardPath.DedupNoDuplicates` | qxdg/qxdgstandardpath.cpp:92 | `removeDuplicates` leaves no duplicates |
| `StandardPath.DedupOrder` | qxdg/qxdgstandardpath.cpp:92 | `removeDuplicates` keeps the entries in the order of their first occurrence |
| `StandardPath.RemoveDuplicates` | qxdg/qxdgstandardpath.cpp:92 | the loop keeps the first occurrence of each entry: no duplicates, the same elements |
| `StandardPath.XdgDataDirs` | qxdg/qxdgstandardpath.cpp:65-95 | `["/usr/local/share", "/usr/share"]` for an empty value; otherwise no duplicates, and exactly the cleaned forms of the non-empty entries starting with `/` |
| `StandardPath.ExistingPaths` | qxdg/qxdgstandardpath.cpp:129-136 | past the first directory, only existing `dir/type` paths are kept |
| `StandardPath.ResourcePaths` | qxdg/qxdgstandardpath.cpp:127-136 | the loop with the `local` flag keeps the first `dir/type` unconditionally and the others when they exist |
| `StandardPath.Kf5ResourceDirs` | qxdg/qxdgstandardpath.cpp:116-139 | `[]` for an empty type; otherwise element 0 is data-home/type and each later one is an existing data-dir/type; at most 1 + the number of data dirs |
| `StandardPath.MatchUserDirLine` | qxdg/qxdgstandardpath.cpp:166-173 | a line matches iff it is `XDG_` + key + `_DIR=` + value, split at the last `_DIR=` as the greedy capture does |
| `StandardPath.StripQuotes` | qxdg/qxdgstandardpath.cpp:174-177 | a value longer than 2 that starts and ends with `"` loses the outer quotes; any other value is kept |
| `StandardPath.StoredSnoc` | qxdg/qxdgstandardpath.cpp:179 | storing one more line overwrites that key |
| `StandardPath.LastLineFor` | qxdg/qxdgstandardpath.cpp:167-180 | -1 or the index of the last matching line for the key |
| `StandardPath.LastLineWins` | qxdg/qxdgstandardpath.cpp:167-180 | the stored value of a key comes from the last line that sets it; a key no line sets is absent |
| `StandardPath.ReadUserDirs` | qxdg/qxdgstandardpath.cpp:162-181 | the read loop fills the hash with the stored value of each matching line, in order |
| `StandardPath.UserDirKey` | qxdg/qxdgstandardpath.cpp:183-211 | the key is non-empty exactly for the eight user-dir types |
| `StandardPath.Fallback` | qxdg/qxdgstandardpath.cpp:226-258 | each user-dir type falls back to a path under home; any other type gives the empty string |
| `StandardPath.PostProcess` | qxdg/qxdgstandardpath.cpp:216-221 | a leading `$HOME` is replaced by the home path, then one trailing `/` is chopped when the value is longer than 1 |
| `StandardPath.UserDirLocation` | qxdg/qxdgstandardpath.cpp:157-259 | the path of `UserDirPath`; empty for a non-user-dir type |
| `StandardPath.UserDirPathEmpty` | qxdg/qxdgstandardpath.cpp:157-259 | with a non-empty home, the result is empty exactly for non-user-dir types |
| `StandardPath.UserDirPathFromLines` | qxdg/qxdgstandardpath.cpp:212-224 | a non-empty value from the last line for the key is post-processed; otherwise the fallback is used |
| `StandardPath.StandardLocations` | qxdg/qxdgstandardpath.cpp:279-313 | each type dispatches to its derivation: singletons for the homes and user dirs, the lists for the search paths, the KDE resource dirs of `kservices5`, `sounds` and `templates`, and `[]` for any other type |

## Left out

- Files, the network and the clock:
  - `isWritable` (qxdg/qxdgdesktopentry.cpp:250-273) is not part of this model: it creates temporary files and directories.
  - `QFile` opening and reading is replaced by `FileState`.
  - Reading `user-dirs.dirs` is replaced by its lines, or `None` when it does not open.
- The `QMutex fileMutex` is never locked; concurrency is not modelled.
- Text encoding:
  - UTF-8 decoding of keys, names and values is not modelled; they are byte sequences.
  - `trimmed` removes the ASCII white bytes only.
  - The escape codec and the paths work on `string` without any encoding.
- The order of `QMap` keys, and so of `allGroups`, is byte-wise here. QString compares UTF-16 units, which agrees on ASCII names.
- Null `QString`s are not modelled. The private `contains` checks `isNull` only as a guard; every public caller has already rejected empty keys and groups.
- `QLocale().name()` and `QLocale::system().name()` are the parameters `processLocale` and `systemLocale`.
- The environment, `QDir::homePath`, `QDir::cleanPath` and `QDir::exists` are parameters.
- `QDir::separator()` is taken to be `/`.
- `qWarning` and `qDebug` logging is not modelled.
- The table order of `QHash` is a fixed order. Whatever the order, `doEscape` replaces distinct keys, so the result does not depend on it.
- The regular expression `^XDG_(.*)_DIR=(.*)$` is modelled as a prefix test plus a split at the last `_DIR=`. The `.` is taken to match every character, because each line is read without its terminator.
- Out-of-range `StandardLocation` values are `OtherLocation(code)`, so the `default:` branches are modelled.
- The `EntryType`/`ValueType` enums (qxdg/qxdgdesktopentry.h) are never used, and values are stored as plain strings.
- The public signatures in qxdg/qxdgdesktopentry.h do not match the definitions. The `.cpp` definitions are modelled.
- `status` is never initialised by the source. The model starts every document at NoError.
- The unreachable "create new section" branch (qxdg/qxdgdesktopentry.cpp:398-405) is an `assert false`. The key check before it rules it out.
- The test's expectation of exactly three groups on its sample file (QXdgTest/tst_qxdgdesktopentrytest.cpp:78-82) is not evaluated on the concrete bytes. `Splitter.GroupsByLastHeader` states the general rule it follows from.
- utils/main.cpp is not part of this model: it is a command-line front end that prints results.
- qxdg/qxdg_global.h is not part of this model: it holds export macros only.
- QXdgTest/tst_qxdgstandardpathtest.cpp is not part of this model: it runs external programs.
- StandardPath.Fallback: the contract states only that a user-dir fallback is a path under home. The eight fixed suffixes (`/Desktop`, `/Downloads`, `/.Templates`, `/.Public`, `/Documents`, `/Pictures`, `/Music`, `/Videos`) are the function's table.
- Tokenizer.EqualsFirstPlain: the first-`=` rule is proved for stretches without backslashes or quotes. In general it is the reference definition `EqualsFrom`, which `ReadLineFromData` is proved to meet.
- Tokenizer.LineEndFirstPlain: the first-terminator rule is proved for stretches without backslashes or quotes. In general it is the reference definition `LineEndFrom`.

## Findings

| source | as written | input that shows it | evidently intended | confidence | as-written member | corrected member |
|---|---|---|---|---|---|---|
| qxdg/qxdgdesktopentry.cpp:133 | `doEscape` puts two backslashes before the replacement letter, so `escape` writes a newline as `\\n` | `"\n"` escapes to backslash, backslash, `n`, which `unescape` reads back as backslash, `n` | one backslash before the letter, the form the escape sequences at lines 507-511 describe, so that `unescape` undoes `escape` | high (not executed) | `EscapeCodec.EscapeLosesNewline` | `EscapeCodec.EscapeCorrected` |
| qxdg/qxdgdesktopentry.cpp:541-553 | `escapeExec` gives a backslash only the string-level doubling | two backslashes escape to four, which `unescapeExec` reads back as one backslash | four backslashes per literal backslash, as the comment at lines 533-539 requires: the quoting rule and then the string escape rule | medium (not executed) | `EscapeCodec.EscapeExecLosesBackslash` | `EscapeCodec.EscapeExecCorrected` |
