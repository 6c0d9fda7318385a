# System information viewer: verified model of its parsing and listing core

`info_manager.py` is a Tkinter desktop tool for Windows. It shows host
metrics, installed applications and installed hot-fixes. This project models
in Dafny the parts of it that compute rather than display:

- **Byte sizes** (`size_format.dfy`): `get_size` picks a unit prefix by
  dividing by 1024 until the value drops below 1024. It returns nothing
  once it runs out of prefixes.
- **Installation dates** (`install_date.dfy`): `parse_installation_date`
  finds the leftmost text of the form `DD-Mon-YY HH:MM:SS AM`. It reads that
  text with `strptime('%d-%b-%y %I:%M:%S %p')`, and any failure gives `None`.
- **Hot-fix listing** (`hotfix.dfy`): the loop of `get_installed_updates`
  turns the lines printed by `Get-HotFix | Format-Table -AutoSize` into
  update records and failure messages. `display_installed_updates` then
  orders the records by installation date.
- **Installed applications** (`software.dfy`): `foo` reads the entries of
  one `...\CurrentVersion\Uninstall` registry key. `list_installed_applications`
  concatenates the entries of three keys and orders them by lower-cased name.
- **Shared pieces**:
  - `text.dfy` holds Python's `str.split()`, `' '.join`, `replace('NT', '')`,
    `startswith`, ASCII `lower()` and string `<=`.
  - `stable_sort.dfy` holds a stable sort with the properties of Python's
    `sorted`.
  - `wrappers.dfy` holds `Option` and `Result`.

Imperative code is modelled as methods with loops. Each method is proved
equal to a specification function:

- `GetSize` against `SizeOf`;
- `GetInstalledUpdates` against `Updates` and `Diagnostics`;
- `ReadUninstallKey` against `Entries`;
- `ListInstalledApplications` against `Applications`.

The lemmas state what the source promises about those functions.

The model reproduces the following behaviour exactly as the code has it,
even where a reader might expect otherwise:

- `get_size` returns `None` for values of 1024^6 and more. It does not print
  them with the `P` prefix. Negative values get no prefix.
- Two-digit years follow Python's `%y` rule: 00-68 become 20xx and 69-99
  become 19xx.
- Descriptions and date candidates lose every `"NT"` in one left-to-right
  pass. `"NNTT"` becomes `"NT"`, so the step is not idempotent.
- On the `AUTHORITY\SYSTEM` path, the five-token text is parsed without
  stripping. The failure message always shows the stripped four-token text.
- An empty `DisplayName` yields an entry. Entries are never de-duplicated:
  the three scopes are concatenated.
- A registry key that cannot be opened is not caught in `foo`. It aborts
  the whole listing, modelled as `Failure(OpenKeyFailed)`.

## Model

| member | source | states |
|---|---|---|
| SizeFormat.GetSize | info_manager.py:18-23 | the loop's result is exactly `SizeOf(bytes, suffix)` |
| SizeFormat.UnitIndexFrom | info_manager.py:20-23 | stepping from unit `from`, the loop stops at the first k with b < 1024^(k+1), with b >= 1024^k when k > 0; it finds none exactly when b >= 1024^6 |
| SizeFormat.SizeOfCharacterized | info_manager.py:18-23 | unit k is chosen, with value b/1024^k, iff b < 1024^(k+1) and (k = 0 or b >= 1024^k); the result is None iff b >= 1024^6 |
| SizeFormat.SizeOf | info_manager.py:18-23 | None exactly from 1024^6 on; otherwise the scaled value is below 1024, its prefix is one of the six, and the suffix is passed through |
| SizeFormat.SizeOfExamples | info_manager.py:18-23 | 0 → 0 B, 1024 → 1 K, 1536 → 1.5 K |
| SizeFormat.SizeOfLargeExamples | info_manager.py:18-23 | 1024^4 → 1 T, 1024^6 → None |
| InstallDate.FindWindowFrom | info_manager.py:28 | the result is a position where the pattern matches, with no match between `from` and it; None only when nothing from `from` on matches |
| InstallDate.MonthNumber | info_manager.py:30 | `%b` matched case-insensitively: Some(m) gives the m-th English month name after lower-casing; None when no month name matches |
| InstallDate.Assemble | info_manager.py:30 | whatever it accepts is a valid datetime (existing day of the month, hour 0-23, minute and second 0-59, year 1969-2068) |
| InstallDate.ParseWindow | info_manager.py:30 | whatever `strptime` accepts is a valid datetime |
| InstallDate.ParseInstallationDate | info_manager.py:26-34 | the result is what `strptime` reads from the leftmost window that matches (None when it refuses that window, never trying a later one); None when no window matches; a result is valid |
| InstallDate.ParseWindowFields | info_manager.py:30 | an accepted window reads as the valid datetime whose day, month (by name, any case), year (`%y` century rule), 12-hour clock and AM/PM marker, minute and second are the window's fields |
| InstallDate.ParseFormat | info_manager.py:30 | every valid datetime's `DD-Mon-YY HH:MM:SS AM` text matches the pattern and is read back as that datetime |
| InstallDate.ParseWindowExactly | info_manager.py:28-30 | a matched window reads as d iff d is valid and the window is d's text up to letter case |
| InstallDate.LowerShaped | info_manager.py:28-30 | letter case in a window changes neither whether it matches nor what it reads as |
| InstallDate.MonthRoundTrip | info_manager.py:30 | each month's abbreviation reads back as that month |
| InstallDate.HourRoundTrip | info_manager.py:30 | `%I`/`%p`: every 24-hour value is some 1-12 hour plus marker, and converts back (12 AM is 0, 12 PM is 12) |
| InstallDate.Hour12OfHour24 | info_manager.py:30 | the 12-hour clock value is recovered from the 24-hour value for either marker |
| InstallDate.CenturyYearDigits | info_manager.py:30 | the `%y` century rule keeps the two digits read |
| InstallDate.ParseAfterDigitFreePrefix | info_manager.py:28-30 | a valid date after digit-free text (such as `NT AUTHORITY\SYSTEM `) is found and read back |
| InstallDate.FirstWindowDecides | info_manager.py:28-30 | when the text starts with a match, that window alone decides the result |
| InstallDate.DayZeroRefused | info_manager.py:30-34 | `00-Jan-24 01:00:00 AM` matches the pattern but is rejected by `strptime` |
| InstallDate.LaterWindowNotTried | info_manager.py:28-34 | a valid date after an invalid match is never tried: the result is None |
| InstallDate.NoWindowWithoutDayField | info_manager.py:28-32 | text with no two digits followed by `-` gives None |
| InstallDate.DateLeTotalOrder | info_manager.py:98 | datetime comparison is total, antisymmetric and transitive |
| Text.TakeWord | info_manager.py:76 | the longest whitespace-free prefix |
| Text.Split | info_manager.py:76 | every token is non-empty and free of whitespace |
| Text.SplitSkipsSpace | info_manager.py:76 | leading whitespace of any width yields no token |
| Text.SplitWord | info_manager.py:76 | a word followed by whitespace or by nothing is exactly one token |
| Text.SplitPadded | info_manager.py:76 | a column-padded line (gaps of any non-empty width, any leading and trailing whitespace) splits into exactly its tokens |
| Text.SplitKeepsNonSpace | info_manager.py:76 | the tokens, concatenated, are exactly the non-whitespace characters of the line |
| Text.SplitJoin | info_manager.py:76-79 | splitting tokens joined by single spaces gives the tokens back |
| Text.Join | info_manager.py:78-79 | joining n tokens adds exactly n-1 characters (the single spaces) to their characters |
| Text.JoinAppend | info_manager.py:78-83 | joining two non-empty groups puts one space between their joins |
| Text.StripNT | info_manager.py:80-81 | the result is never longer |
| Text.StripNTIdentity | info_manager.py:80-81 | text without `NT` is unchanged |
| Text.StripNTRemovesPairs | info_manager.py:80-81 | the result is shorter by an even count, one N and one T per removed pair, and every other character count is kept |
| Text.StripNTAppend | info_manager.py:80-81 | without an N/T pair across the seam, stripping distributes over concatenation |
| Text.StripNTNotIdempotent | info_manager.py:80-81 | `NNTT` becomes `NT`, and stripping that again gives the empty string |
| Text.StartsWith | info_manager.py:82 | s starts with p iff s is p followed by the rest of s |
| Text.StartsWithinWord | info_manager.py:82 | a prefix without spaces that starts `w + " " + rest` already starts `w` |
| Text.Lower | info_manager.py:269 | same length, each character lower-cased |
| Text.LexLeReflexive | info_manager.py:269 | string `<=` is reflexive |
| Text.LexLeTotal | info_manager.py:269 | string `<=` is total |
| Text.LexLeTransitive | info_manager.py:269 | string `<=` is transitive |
| Text.LexLeAntisymmetric | info_manager.py:269 | string `<=` is antisymmetric |
| StableSort.Insert | info_manager.py:98 | insertion adds exactly the element |
| StableSort.Sort | info_manager.py:98 | the result is a permutation of the input |
| StableSort.InsertSorted | info_manager.py:98 | insertion keeps a sequence ordered |
| StableSort.InsertTies | info_manager.py:98 | the inserted element goes in front of the elements it ties with |
| StableSort.SortSorted | info_manager.py:98 | the result is ordered |
| StableSort.SortTies | info_manager.py:98 | elements with equal keys keep their input order |
| StableSort.SortIsStable | info_manager.py:98 | ordered, a permutation, and equal keys in input order |
| StableSort.StableSortUnique | info_manager.py:98 | two ordered sequences with the same tie groups are equal |
| StableSort.SortCharacterized | info_manager.py:98 | any ordered arrangement that keeps ties in input order is `Sort`'s result |
| StableSort.SortedInputUnchanged | info_manager.py:269 | ordered input is returned unchanged |
| Hotfix.ParseLine | info_manager.py:76-77 | a line is skipped iff it has fewer than six tokens |
| Hotfix.ParseTokens | info_manager.py:77-90 | a failure is reported with the last four tokens, joined and stripped |
| Hotfix.Classify | info_manager.py:82-90 | a record carries the stripped description; a failure shows the four-token text; the result is never a skipped line; without the `AUTHORITY\SYSTEM` prefix the four-token text is parsed, with it the five-token text: the line yields a record iff that text parses, with that date |
| Hotfix.Outcomes | info_manager.py:75-76 | one outcome per data line |
| Hotfix.Records | info_manager.py:87-88 | at most one record per line |
| Hotfix.Messages | info_manager.py:89-90 | at most one message per line; `MessagesAppend` and `MessagesExactly` give their order and content |
| Hotfix.Updates | info_manager.py:71-91 | fewer than four lines give no records; otherwise at most one record per data line |
| Hotfix.Diagnostics | info_manager.py:71-90 | fewer than four lines print only "No installed updates found."; otherwise at most one message per data line, pinned by `DiagnosticsFromDataLines` and `NextLineAppends` |
| Hotfix.GetInstalledUpdates | info_manager.py:71-91 | the loop returns `Updates(lines)` and prints `Diagnostics(lines)` |
| Hotfix.RecordsAppend | info_manager.py:75-91 | records are appended in line order |
| Hotfix.LineWithoutRecordDropped | info_manager.py:77-90 | a line without a record (too short, or an unreadable date) is dropped, and the records of the other lines are unchanged |
| Hotfix.RecordsExactly | info_manager.py:87-88 | r is a record iff some line parses to exactly r |
| Hotfix.RecordsFrom | info_manager.py:75 | the records from line k on are those of the lines there that parse |
| Hotfix.MessagesAppend | info_manager.py:75-90 | messages are printed in line order: those of the earlier lines, then those of the later ones |
| Hotfix.MessagesExactly | info_manager.py:89-90 | m is printed iff some outcome is a failure whose shown text, after "Failed to parse installation date: ", is m |
| Hotfix.MessagesFrom | info_manager.py:75 | the messages from line k on are those of the failures there |
| Hotfix.DiagnosticsFromDataLines | info_manager.py:71-90 | with data lines, m is printed iff some line after the three headers is a failure whose message is m; "No installed updates found." is then not printed |
| Hotfix.NextLineAppends | info_manager.py:75-90 | one more line after the headers appends exactly its record, or its failure message, after those of the earlier lines |
| Hotfix.UpdatesFromDataLines | info_manager.py:71-91 | fewer than four lines give no records and the "No installed updates found." message; otherwise r is returned iff some line after the three headers parses to r |
| Hotfix.ParseJoinedLine | info_manager.py:76 | a line written as single-space-joined tokens is parsed from those tokens |
| Hotfix.ParsePaddedLine | info_manager.py:76 | a line as `Format-Table` pads it is parsed from its tokens, whatever the widths of its gaps |
| Hotfix.FirstTokenIgnored | info_manager.py:78-79 | token 0 never affects the outcome |
| Hotfix.WindowTokensJoin | info_manager.py:76-83 | a date window splits into three tokens that join back to it |
| Hotfix.SystemPrefixKept | info_manager.py:81-82 | `AUTHORITY\SYSTEM` before a date survives stripping, so the five-token branch is taken |
| Hotfix.SystemLineTail | info_manager.py:79-83 | on a line ending `NT AUTHORITY\SYSTEM <date>`, the stripped four-token text starts with `AUTHORITY\SYSTEM`, and the five-token text is `NT AUTHORITY\SYSTEM <date>` |
| Hotfix.ClassifySystem | info_manager.py:82-88 | on the `AUTHORITY\SYSTEM` path, the date comes from the five-token text |
| Hotfix.ClassifySystemFails | info_manager.py:82-90 | on the `AUTHORITY\SYSTEM` path, a five-token text that does not parse is reported with the four-token text |
| Hotfix.SystemLineJoined | info_manager.py:76 | the tokens of such a line are the words of the printed line |
| Hotfix.SystemInstalledLine | info_manager.py:78-88 | such a line yields its date, and the description of tokens 1..n-5 with `NT` removed |
| Hotfix.ClassifyOrdinary | info_manager.py:82-88 | without the `AUTHORITY\SYSTEM` prefix, the date comes from the stripped four-token text |
| Hotfix.OrdinaryLineTail | info_manager.py:79-82 | for an installer token without `NT` or the `AUTHORITY\SYSTEM` prefix, the stripped four-token text is `<installer> <date>` and does not start with that prefix |
| Hotfix.OrdinaryLineParsed | info_manager.py:77-88 | a line whose stripped last four tokens do not start with `AUTHORITY\SYSTEM` and parse to d yields d with tokens 1..n-5 stripped as description |
| Hotfix.OrdinaryInstalledLine | info_manager.py:78-88 | a line ending `<installer> <date>` (such as `DOMAIN\admin`) yields its date and the description of tokens 1..n-5 with `NT` removed |
| InstallDate.FormatNoNT | info_manager.py:81 | a formatted date contains no `NT`, so stripping leaves it alone |
| Hotfix.InstalledNoLaterPreorder | info_manager.py:98 | comparing by `InstalledOn` is a total preorder |
| Hotfix.SortedUpdates | info_manager.py:98 | the displayed list holds the same records, as many times each |
| Hotfix.SortedUpdatesChronological | info_manager.py:98 | the displayed list is chronological and a permutation; records with equal dates keep their order |
| Software.Entries | info_manager.py:43-59 | at most one entry per subkey |
| Software.ReadUninstallKey | info_manager.py:37-60 | fails iff the Uninstall key cannot be opened; otherwise returns `Entries(subkeys)` |
| Software.EntriesAppend | info_manager.py:43-57 | entries come in subkey index order |
| Software.EntryOfDescribes | info_manager.py:45-59 | a subkey yields e iff it opens, has a DisplayName (possibly empty), and e holds that name and the version and publisher, each defaulting to `'undefined'` on its own |
| Software.EntriesExactly | info_manager.py:43-59 | e is collected iff some subkey describes it |
| Software.NameNoLaterPreorder | info_manager.py:269 | comparing by lower-cased name is a total preorder |
| Software.Applications | info_manager.py:265-269 | fails iff one of the three keys cannot be opened; otherwise a rearrangement of the three scopes' entries |
| Software.ListInstalledApplications | info_manager.py:264-269 | the three reads and the merge give exactly `Applications(...)` |
| Software.ApplicationsListing | info_manager.py:265-269 | fails iff a key cannot be opened; otherwise ordered by lower-cased name, a permutation of the concatenation (length = sum, no de-duplication), equal names in scope order |
| Software.SameNameInTwoScopes | info_manager.py:265-269 | `Tool` 1.0 (no publisher) in HKLM and `tool` 2.0 in HKCU are both listed, HKLM first, the missing publisher shown as `undefined` |

## Left out

- The Tkinter GUI and every `display_*` body apart from the sort on line 98, plus `about_info` and the link handlers. They are presentation and widget state.
- Running PowerShell, the `platform.system()` check and the catch-all `except` in `get_installed_updates`. The model starts from the list of printed lines, as `splitlines()` returns it. The outcome of each line is modelled as the message list `Diagnostics` rather than as printing.
- The registry API (`ConnectRegistry`, `OpenKey`, `QueryInfoKey`, `EnumKey`, `QueryValueEx`). It is replaced by a value: each key is unavailable or a sequence of subkeys. A subkey cannot be enumerated or opened, or maps value names to strings. Non-string registry values are not modelled.
- Software.EntryOf: registry value names are case-insensitive, so `QueryValueEx(asubkey, "DisplayName")` also finds a value stored as `displayname`; the model looks names up exactly, as the map keys are written.
- Host metrics (CPU, GPU, memory, disk, OS queries). These are foreign library calls with float rounding.
- The `%.2f` rendering in `get_size`, `tabulate`, `textwrap.fill` and `strftime`. `get_size` is modelled on exact reals, so floating-point rounding of `bytes /= 1024` is not captured.
- Unicode: `str.split()` is modelled with ASCII whitespace, `lower()` with ASCII letters, and `%b` with English month names. Non-ASCII digits that `\d` would accept are not modelled.
- InstallDate.ParseInstallationDate: does not model the `ValueError` raised by `strptime` as an exception; it is the `None` result it is turned into.
- Software.SameNameInTwoScopes: shows one concrete merge; the general statement is ApplicationsListing.
