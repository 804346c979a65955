# nginx conf.d editor: configuration-text analysis, in Dafny

This project models the logic inside a small GTK editor for nginx `conf.d`
files. The editor collects the hostnames that `server_name` directives
declare and keeps `/etc/hosts` in step with them. It also computes the spans
its fallback syntax highlighter tags. It names new configuration files and
fills them with a default server block. The GUI, the shell commands and the
file system around this logic are parameters of the model.

Text is ASCII, one byte per character, and only `\n` ends a line.

Modules, one per source file plus one for the string primitives:

- `GStr` (`gstr.dfy`) holds the GLib and C library string functions the
  source relies on: `g_ascii_isspace`, `g_strstrip`, `g_strsplit`, `strchr`,
  `strstr` and `g_str_has_prefix`/`g_str_has_suffix`. It also holds the facts
  about them that the other modules need. `g_strsplit` of the empty string
  gives no pieces at all, as GLib does.
- `NginxHosts` (`nginx_hosts.dfy`) is `src/nginx_hosts.c`. `Extract` is the
  hostname extractor as a specification, and `ExtractDomainsFromConfig` is
  the line loop of the source, proved equal to it. `Hosts` is the hosts
  table as a class over a sequence of lines, with `DomainExists` and
  `AddDomain`. `AddedHosts` is the table that an add leaves behind.
- `NginxUi` (`nginx_ui.dfy`) is `src/nginx_ui.c`. It holds the `.conf` filter
  of the file list, and `Highlight`, the set of (start, end, category) spans
  the highlighter tags. `TextBuffer.ApplySyntaxHighlighting` is the
  highlighter's nested line, keyword and `strstr` loops, proved to tag
  exactly `Highlight(text)`.
- `NginxFile` (`nginx_file.dfy`) is `src/nginx_file.c`. It covers how a new
  file is named, how its domain is derived and the default server block. It
  also covers the loop that adds the extracted hostnames to the hosts table,
  the reload message, and the editor actions as methods of an `Editor`
  class.

The inputs that come from outside are parameters:

- Whether the hosts file can be opened is the `readable` flag. It is fixed for the table's whole life, so it stands for a hosts file that exists, readable or not; a missing hosts file is not modelled (see "## Left out").
- Whether each privileged append, `touch`, copy or temporary write succeeds
  is a boolean.
- What a directory read yields is a sequence of names.
- What a command prints is a string.

The model follows the code, quirks included:

- The `server_name` test is a bare prefix test, with no word boundary after
  it. So `server_names a;` yields `s` and `a` (`NginxHosts.NoWordBoundary`).
- Every token whose first character is `_` is dropped, not only the token
  `_`.
- Lines are stripped with `g_strstrip`, so a `\r` at the end of a line is
  removed.
- Tabs inside the argument region do not split tokens
  (`NginxHosts.TabInsideToken`).
- The keyword `strstr` scan launched from a non-comment line runs to the end
  of the whole text. Occurrences on later lines, comment lines included, are
  therefore tagged (`NginxUi.KeywordSpans`).

## Model

| member | source | states |
|---|---|---|
| `NginxHosts.ExtractDomainsFromConfig` | src/nginx_hosts.c:4-63 | the line loop returns exactly `Extract(config)`: the hostnames of each `\n`-separated line, stripped, in line order |
| `NginxHosts.ServerNameArguments` | src/nginx_hosts.c:19-55 | the `server_name` branch skips spaces and tabs, cuts at the first `#` or `;`, strips, splits on spaces and filters, giving `DirectiveDomains` of the line |
| `NginxHosts.KeepTokens` | src/nginx_hosts.c:41-50 | the token loop keeps each stripped token that is non-empty, not `_`-led, not `default_server` and not `~`- or `*`-led, in order |
| `NginxHosts.SkipBlanks` | src/nginx_hosts.c:22 | skipping after the keyword stops at the first character that is neither space nor tab, or at the end |
| `NginxHosts.ArgumentEnd` | src/nginx_hosts.c:25-33 | the region's end lies between its start and the line's end, and is a `#` or `;` unless it is the line's end |
| `NginxHosts.ArgumentEndFirst` | src/nginx_hosts.c:25-33 | no `#` and no `;` lies inside the argument region |
| `NginxHosts.NothingAfterTerminator` | src/nginx_hosts.c:25-33 | whatever follows the first `#` or `;` after `server_name` never changes the line's hostnames |
| `NginxHosts.RegionShape` | src/nginx_hosts.c:21-36 | the argument region is a contiguous piece of the line that holds no `#` and no `;` |
| `NginxHosts.ExtractConcat` | src/nginx_hosts.c:6-8 | `Extract(a + "\n" + b) == Extract(a) + Extract(b)`: line order is kept and duplicates are kept |
| `NginxHosts.SingleLine` | src/nginx_hosts.c:6-8 | a text without `\n` yields the hostnames of its one line |
| `NginxHosts.BlankOrCommentLineIgnored` | src/nginx_hosts.c:12-16 | a line that is empty or starts with `#` once stripped contributes nothing, before or after any other text |
| `NginxHosts.NoDirectiveNoHostnames` | src/nginx_hosts.c:19 | lines none of which starts with `server_name` once stripped yield no hostnames |
| `NginxHosts.NoDirectiveInText` | src/nginx_hosts.c:19 | a text none of whose lines starts with `server_name` once stripped yields the empty list |
| `NginxHosts.GluedSuffix` | src/nginx_hosts.c:19-22 | no word boundary: text glued to `server_name` reads as if a space separated it |
| `NginxHosts.NoWordBoundary` | src/nginx_hosts.c:19-22 | `server_names a;` yields `["s", "a"]` |
| `NginxHosts.TabInsideToken` | src/nginx_hosts.c:41 | `server_name a<TAB>b;` yields the single hostname `a<TAB>b`, since only spaces split |
| `NginxHosts.LineDomainsShape` | src/nginx_hosts.c:36-47 | each hostname of a line is well formed and is a contiguous piece of that line |
| `NginxHosts.ExtractedShape` | src/nginx_hosts.c:36-47 | every extracted hostname is non-empty, has no space, `#`, `;` or `\n`, no blank at either end, is not `_`-, `~`- or `*`-led, is not `default_server`, and is a contiguous piece of one input line |
| `NginxHosts.KeptTokensMember` | src/nginx_hosts.c:42-48 | every kept hostname is the stripped form of one of the tokens and passes the filter |
| `NginxHosts.DirectiveDomainsOf` | src/nginx_hosts.c:19-50 | a `server_name` directive listing well-formed hostnames separated by single spaces yields exactly that list |
| `NginxHosts.DirectiveRoundTrip` | src/nginx_hosts.c:10-50 | the same directive, indented by any whitespace, is a line whose hostnames are exactly the list |
| `NginxHosts.DirectiveAlone` | src/nginx_hosts.c:6-19 | a single line led by `server_name` with a non-blank last character yields the hostnames of its directive |
| `NginxHosts.DirectiveLineParts` | src/nginx_hosts.c:4-63 | a text made of one directive line for well-formed hostnames yields exactly those hostnames |
| `NginxHosts.TwoHostnames` | src/nginx_hosts.c:4-63 | `server_name example.com www.example.com;` yields both names in order |
| `NginxHosts.TextAfterTerminator` | src/nginx_hosts.c:25-33 | a directive line followed, after its `;`, by any text on the same line, trailing blanks included, yields exactly its hostnames |
| `NginxHosts.TrailingComment` | src/nginx_hosts.c:25-33 | `server_name site.com; # trailing comment` yields `["site.com"]` |
| `NginxHosts.AllDroppedDirective` | src/nginx_hosts.c:41-50 | a directive whose every token fails the filter yields nothing |
| `NginxHosts.AllDropped` | src/nginx_hosts.c:41-50 | the same, read as a whole text, yields the empty list |
| `NginxHosts.CatchAllDropped` | src/nginx_hosts.c:44 | `server_name _ default_server;` yields nothing |
| `NginxHosts.PatternsDropped` | src/nginx_hosts.c:46 | `server_name *.example.com ~^regex$;` yields nothing |
| `NginxHosts.Hosts.DomainExists` | src/nginx_hosts.c:65-85 | the answer is true iff the table is readable and some line whose first character is not `#` holds the domain as a substring |
| `NginxHosts.Hosts.AddDomain` | src/nginx_hosts.c:87-99 | the table is left as it was when the domain exists or the append fails; otherwise exactly `127.0.0.1 <domain>` is appended |
| `NginxHosts.EntryListed` | src/nginx_hosts.c:92 | the appended entry is not a comment line and holds the domain |
| `NginxHosts.AddThenExists` | src/nginx_hosts.c:87-93 | after a successful add to a readable table, `domain_exists` holds |
| `NginxHosts.AddKeepsListed` | src/nginx_hosts.c:87-93 | an add keeps every line, so whatever was listed stays listed |
| `NginxHosts.AddAppendsAtMostOnce` | src/nginx_hosts.c:87-93 | an existing domain leaves the table unchanged; a missing one with a successful append adds exactly one line `127.0.0.1 <domain>` |
| `NginxHosts.AddIdempotent` | src/nginx_hosts.c:87-93 | on a readable table, adding twice equals adding once |
| `NginxHosts.UnreadableAppendsAgain` | src/nginx_hosts.c:66-67 | on a table that cannot be opened, each add appends again |
| `NginxHosts.SubstringMembership` | src/nginx_hosts.c:72-80 | a partial-word match counts, and a line `  # ...` is not skipped because only a `#` in the first column is |
| `NginxUi.RefreshFileList` | src/nginx_ui.c:95-120 | the listing is the `.conf` entries of the directory in read order, with the "Loaded N config file(s)" message, or no listing and the error message |
| `NginxUi.LoadedMessageCount` | src/nginx_ui.c:113-114 | the count in the "Loaded N config file(s)" message is decimal digits with no leading zero that read back as the number of `.conf` files listed |
| `NginxUi.ConfNamesMember` | src/nginx_ui.c:102-106 | a name is listed iff it is a directory entry that ends in `.conf` |
| `NginxUi.ConfNamesOrder` | src/nginx_ui.c:102-106 | listing keeps read order: the listing of `a + b` is that of `a` followed by that of `b` |
| `NginxUi.TextBuffer.ApplySyntaxHighlighting` | src/nginx_ui.c:122-229 | an empty buffer is left alone; otherwise the old tags are discarded and the tags become exactly `Highlight(text)` |
| `NginxUi.HighlightLine` | src/nginx_ui.c:154-216 | the body of the line loop applies exactly the spans of the line that begins at `lineStart` |
| `NginxUi.HighlightString` | src/nginx_ui.c:166-178 | the string test applies the span from the first `"` of the line to just past the next `"`, when both lie on the line |
| `NginxUi.HighlightKeywords` | src/nginx_ui.c:181-215 | the keyword loop applies the scans of all 27 table entries from the line's start |
| `NginxUi.HighlightKeyword` | src/nginx_ui.c:182-214 | the `strstr` loop for one keyword applies `KeywordScan`: each occurrence found that is a whole word, resuming past every occurrence |
| `NginxUi.IsWholeWord` | src/nginx_ui.c:186-194 | the neighbour test holds iff neither neighbour inside the text is an ASCII alphanumeric or `_` |
| `NginxUi.KeywordsAreWords` | src/nginx_ui.c:127-135 | the table has 27 entries, each a non-empty run of lower-case letters and `_` |
| `NginxUi.DirectiveKeywords` | src/nginx_ui.c:203-211 | of the 27 entries, exactly `server`, `location`, `upstream`, `http` and `events` get the directive category |
| `NginxUi.KeywordScanSound` | src/nginx_ui.c:184-213 | everything a keyword scan tags is a whole-word occurrence at or after the scan's start, with the keyword's category |
| `NginxUi.KeywordScanComplete` | src/nginx_ui.c:184-213 | the non-overlapping `strstr` scan misses no whole-word occurrence at or after its start |
| `NginxUi.TableSpansExact` | src/nginx_ui.c:181-215 | the table scans from a position tag exactly the whole-word occurrences of table keywords at or after it |
| `NginxUi.QuoteSpansShape` | src/nginx_ui.c:167-170 | a string span starts at the line's first `"` and ends just past the next `"`, both before the line's end |
| `NginxUi.ScanFromLines` | src/nginx_ui.c:153-225 | the line loop from a line start collects what each later line start contributes |
| `NginxUi.LineSpansBounds` | src/nginx_ui.c:159-215 | every span a line contributes starts at or after the line's start, is non-empty and ends within the text |
| `NginxUi.HighlightBounds` | src/nginx_ui.c:153-225 | every span starts before it ends and ends no later than the text's length |
| `NginxUi.EmptyTextNoSpans` | src/nginx_ui.c:141-144 | empty text yields no spans |
| `NginxUi.WhitespaceNoSpans` | src/nginx_ui.c:153-225 | a text made only of blanks yields no spans: no line of it is a comment, and it holds no quote and no keyword |
| `NginxUi.CommentSpans` | src/nginx_ui.c:159-165 | comment spans are exactly the lines that start with `#` once stripped, each from its start to its end, `\n` excluded |
| `NginxUi.StringSpans` | src/nginx_ui.c:166-178 | string spans are exactly the string spans of the non-comment lines |
| `NginxUi.OneStringSpanPerLine` | src/nginx_ui.c:166-178 | a line gets at most one string span |
| `NginxUi.KeywordSpans` | src/nginx_ui.c:181-221 | a keyword or directive span is tagged iff it is a whole-word table occurrence with some non-comment line starting at or before it, even on a later or comment line |
| `NginxUi.ServerInsideServerName` | src/nginx_ui.c:186-194 | `server` at the head of `server_name` is never tagged as a keyword or directive |
| `NginxUi.SingleCommentLine` | src/nginx_ui.c:159-165 | a text of one comment line gets exactly one span, the comment over the whole line |
| `NginxUi.IndentedCommentLine` | src/nginx_ui.c:159-165 | an indented line starting with `#` gets only the comment span, whatever follows on the line, keywords and trailing blanks included |
| `NginxUi.IndentedComment` | src/nginx_ui.c:159-165 | `    # comment with server_name` gets one comment span and no keyword span |
| `NginxFile.FullFilename` | src/nginx_file.c:28-33 | the result ends in `.conf` and begins with the name; a `.conf` name is kept, any other gets `.conf` appended |
| `NginxFile.FullFilenameIdempotent` | src/nginx_file.c:29-33 | normalising twice equals normalising once |
| `NginxFile.Stem` | src/nginx_file.c:47-50 | for a `.conf` name, `domain + ".conf" == full`; any other name is kept |
| `NginxFile.StemOfFullFilename` | src/nginx_file.c:47-50 | the domain of a normalised name plus `.conf` is the full name, and is the typed name when that lacked `.conf` |
| `NginxFile.DomainName` | src/nginx_file.c:47-50 | in-place truncation, writing a NUL over the `.` of `.conf` and reading back to the first NUL, yields `Stem(full)` |
| `NginxFile.DefaultConfigSplit` | src/nginx_file.c:52-63 | the default text reads back as the nine fixed lines plus an empty remainder, the third being `    server_name <domain>;` |
| `NginxFile.OpeningLinesIgnored` | src/nginx_file.c:53-54 | the lines before the `server_name` line yield no hostnames |
| `NginxFile.ClosingLinesIgnored` | src/nginx_file.c:56-61 | the lines after the `server_name` line yield no hostnames |
| `NginxFile.ServerNameLineYields` | src/nginx_file.c:55 | the `server_name` line of the block yields its domain |
| `NginxFile.ExtractDefaultLines` | src/nginx_file.c:52-63 | the nine lines of the block yield exactly the domain |
| `NginxFile.ExtractDefaultConfig` | src/nginx_file.c:52-80 | extracting from the default config of a well-formed domain gives exactly `[domain]` |
| `NginxFile.SyncHosts` | src/nginx_file.c:81-88 | the loop leaves the table as `Synced` and logs one "Added domain" line per hostname missing when its turn comes |
| `NginxFile.SyncListsAll` | src/nginx_file.c:81-88 | when the table is readable and every append succeeds, every extracted hostname is listed afterwards |
| `NginxFile.SyncExtends` | src/nginx_file.c:81-88 | the loop keeps every line and appends only entries for hostnames it was given |
| `NginxFile.SyncListedUnchanged` | src/nginx_file.c:81-88 | hostnames that are all listed already change and log nothing |
| `NginxFile.SyncIdempotent` | src/nginx_file.c:135-142 | a second sync after a fully successful one changes and logs nothing |
| `NginxFile.SyncLogMatchesAppends` | src/nginx_file.c:81-88 | when every append succeeds, the table grows by one line per log line |
| `NginxFile.FailedAppendLogged` | src/nginx_file.c:82-86 | a hostname whose append fails is still logged as added, and the table is unchanged |
| `NginxFile.UnreadableLogsAll` | src/nginx_file.c:82-86 | on a table that cannot be opened, every hostname is logged |
| `NginxFile.NewFileListsDomain` | src/nginx_file.c:47-88 | creating a file for a well-formed domain lists that domain in a readable table when the append succeeds |
| `NginxFile.CommandOutput` | src/nginx_file.c:4-18 | a command that cannot start gives a non-empty error text; otherwise its output is passed on |
| `NginxFile.ReloadMessage` | src/nginx_file.c:227-231 | empty output gives "Nginx reloaded successfully"; any other output is logged as it is |
| `NginxFile.ReloadNotStarted` | src/nginx_file.c:223-231 | a reload whose command cannot start is reported as the error text, never as success |
| `NginxFile.ReloadSuccessReported` | src/nginx_file.c:223-231 | for output other than the success text itself, success is reported iff the command started and printed nothing |
| `NginxFile.Touched` | src/nginx_file.c:38-39 | `touch` creates the file when missing and keeps every existing file's contents |
| `NginxFile.Editor.Refresh` | src/nginx_ui.c:95-120 | the file list becomes the `.conf` listing and the log gains the listing message; nothing else changes |
| `NginxFile.Editor.OnNewFile` | src/nginx_file.c:20-108 | an empty name logs the error and changes nothing; each failure logs its error; success writes the template, syncs the hosts table, refreshes, clears the entry and logs "Created" |
| `NginxFile.Editor.Publish` | src/nginx_file.c:78-96 | the success path of file creation, with its full new state |
| `NginxFile.Editor.OnSave` | src/nginx_file.c:110-160 | with no open file, a failed temp write or a failed copy, only the error is logged; otherwise the file gets the buffer text, the hosts table is synced and "Saved" is logged |
| `NginxFile.Editor.OnTestConfig` | src/nginx_file.c:215-221 | logs the testing line then the command's output |
| `NginxFile.Editor.OnReload` | src/nginx_file.c:223-233 | logs the reloading line then `ReloadMessage` of the command's output |

## Left out

- GTK widget construction, layout, list factories, dialogs and signal wiring are left out. That includes the delete confirmation and `on_delete_response` (src/nginx_file.c:162-213) and file loading on selection. They are user interface, not text analysis.
- `append_log` timestamps are left out: they read the wall clock. Log lines are modelled as plain strings.
- `popen`, `system`, the `sudo` commands, temporary files, `g_file_get_contents` and directory reads are left out. Their outcomes are inputs: success flags, a sequence of directory names, the printed output.
- Reading `/etc/hosts` with `fgets` into a 4096-byte buffer is modelled as a sequence of whole lines. A line longer than the buffer, which `fgets` returns in chunks, is not modelled.
- GTK offsets count characters while the source computes byte differences. GTK also breaks lines at `\r` for `get_iter_at_line`. The model treats text as ASCII split only on `\n`, where the two agree.
- The `HAVE_GTKSOURCEVIEW` branch is left out: it hands highlighting to a foreign library.
- Shell quoting and injection in the command strings, and freeing memory, are not modelled.
- `NginxFile.Editor.OnNewFile` requires that the typed name holds no NUL character. A C string cannot hold one, so this excludes no input the program can receive.
- Hosts-file appends and the other privileged steps are modelled as succeeding or failing as a whole. A partial write is not modelled.
- The hosts table is a sequence of whole lines, so the file is taken to end in a newline. The source appends with `echo "127.0.0.1 <domain>" >> /etc/hosts` (src/nginx_hosts.c:92). On a file whose last line has no newline, that joins the entry onto the last line. If that line starts with `#`, the domain is still not listed after a successful add. `NginxHosts.AddThenExists`, `NginxHosts.AddIdempotent`, `NginxFile.SyncListsAll`, `NginxFile.SyncIdempotent` and `NginxFile.NewFileListsDomain` hold only under this assumption.
- A missing hosts file is not modelled. The source opens `/etc/hosts` afresh on every check (src/nginx_hosts.c:66), and when the file is missing, the first successful `echo ... >> /etc/hosts` (src/nginx_hosts.c:92) creates it, so later checks can read it. The model's `readable` flag is a constant of the table instead, so `readable == false` stands only for a file that exists but cannot be opened.
- NginxHosts.UnreadableAppendsAgain: holds only for a hosts file that exists but cannot be opened. When the file is missing, the source's first successful append creates it, and a second add of the same domain then finds the entry and does not append again.
- NginxFile.UnreadableLogsAll: holds only for a hosts file that exists but cannot be opened. When the file is missing, the first successful append creates it, and a later hostname that entry already covers is not logged (for `a.com a.com` the source logs once, the model twice).
