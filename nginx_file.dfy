/**
 * src/nginx_file.c: naming a new conf.d file, the server block written into
 * it, keeping the hosts table in step with the hostnames of a file that was
 * written, and the messages of the save and reload actions.
 */
module NginxFile {
  import opened GStr
  import opened NginxHosts
  import NginxUi

  /*
   * Naming a new file.
   */

  /** on_new_file_clicked: the name as typed, with `.conf` added unless it
      already ends so. */
  function FullFilename(name: string): (full: string)
    ensures HasSuffix(full, NginxUi.ConfSuffix)
    ensures HasPrefix(full, name)
    ensures HasSuffix(name, NginxUi.ConfSuffix) ==> full == name
    ensures !HasSuffix(name, NginxUi.ConfSuffix) ==> |full| == |name| + |NginxUi.ConfSuffix|
  {
    if HasSuffix(name, NginxUi.ConfSuffix) then name
    else
      var full := name + NginxUi.ConfSuffix;
      assert full[|full| - |NginxUi.ConfSuffix|..] == NginxUi.ConfSuffix;
      assert full[..|name|] == name;
      full
  }

  /** Naming is settled after one round. */
  lemma FullFilenameIdempotent(name: string)
    ensures FullFilename(FullFilename(name)) == FullFilename(name)
  {
  }

  /** The domain of a file: its name without the `.conf` suffix. */
  function Stem(full: string): (domain: string)
    ensures HasSuffix(full, NginxUi.ConfSuffix) ==> domain + NginxUi.ConfSuffix == full
    ensures !HasSuffix(full, NginxUi.ConfSuffix) ==> domain == full
  {
    if HasSuffix(full, NginxUi.ConfSuffix) then full[..|full| - |NginxUi.ConfSuffix|] else full
  }

  /** The domain of a normalised name is the name as typed, less a `.conf`
      the user typed. */
  lemma StemOfFullFilename(name: string)
    ensures Stem(FullFilename(name)) + NginxUi.ConfSuffix == FullFilename(name)
    ensures !HasSuffix(name, NginxUi.ConfSuffix) ==> Stem(FullFilename(name)) == name
  {
    var full := FullFilename(name);
    if !HasSuffix(name, NginxUi.ConfSuffix) {
      assert full == name + NginxUi.ConfSuffix;
      assert full[..|full| - |NginxUi.ConfSuffix|] == name;
    }
  }

  /** on_new_file_clicked: the domain is a copy of the file name, cut short
      in place by a terminating NUL written over the `.` of `.conf`, and
      read back up to its first NUL. */
  method DomainName(full: string) returns (domain: string)
    requires '\0' !in full
    ensures domain == Stem(full)
  {
    var buf := new char[|full| + 1];
    forall i | 0 <= i < |full| {
      buf[i] := full[i];
    }
    buf[|full|] := '\0';
    var cut := |full|;
    if HasSuffix(full, NginxUi.ConfSuffix) {
      cut := |full| - |NginxUi.ConfSuffix|;
      buf[cut] := '\0';
    }
    var n := 0;
    while buf[n] != '\0'
      invariant 0 <= n <= cut <= |full| && buf[cut] == '\0'
      invariant forall j :: 0 <= j < cut ==> buf[j] == full[j]
      decreases cut - n
    {
      n := n + 1;
    }
    domain := buf[..n];
    assert domain == full[..cut];
  }

  /*
   * The server block written into a new file.
   */

  const Indent := "    "

  /** The lines of the block before its `server_name` line. */
  const OpeningLines := ["server {", Indent + "listen 80;"]

  /** The `server_name` line of the block. */
  function ServerNameLine(domain: string): string {
    Indent + "server_name " + domain + ";"
  }

  /** The lines of the block after its `server_name` line. */
  const ClosingLines := [
    Indent,
    Indent + "location / {",
    Indent + Indent + "root /var/www/html;",
    Indent + Indent + "index index.html;",
    Indent + "}",
    "}" ]

  /** The lines of the default server block for `domain`. */
  function DefaultConfigLines(domain: string): seq<string> {
    OpeningLines + [ServerNameLine(domain)] + ClosingLines
  }

  /** Lines written out one after another, each ended by a line break. */
  function JoinLines(lines: seq<string>): string {
    if lines == [] then "" else lines[0] + "\n" + JoinLines(lines[1..])
  }

  /** The text written into a new file for `domain`. */
  function DefaultConfig(domain: string): string {
    JoinLines(DefaultConfigLines(domain))
  }

  /** Lines ended by line breaks are the pieces between the separators, with
      an empty piece after the last one. */
  lemma {:induction false} JoinLinesAsJoin(lines: seq<string>)
    ensures JoinLines(lines) == Join(lines + [""], '\n')
    decreases |lines|
  {
    if lines != [] {
      var rest := lines[1..];
      JoinLinesAsJoin(rest);
      assert (lines + [""])[1..] == rest + [""];
    }
  }

  /** The default server block reads back, line by line, as its nine lines
      and an empty remainder; the third is the `server_name` line. */
  lemma DefaultConfigSplit(domain: string)
    requires '\n' !in domain
    ensures Split(DefaultConfig(domain), '\n') == DefaultConfigLines(domain) + [""]
    ensures Split(DefaultConfig(domain), '\n')[2] == ServerNameLine(domain)
  {
    var lines := DefaultConfigLines(domain);
    JoinLinesAsJoin(lines);
    assert forall k :: 0 <= k < |lines + [""]| ==> '\n' !in (lines + [""])[k];
    PiecesJoin(lines + [""], '\n');
  }

  /** Lines without line breaks are read back one by one. */
  lemma {:induction false} ExtractJoinedLines(lines: seq<string>)
    requires forall k :: 0 <= k < |lines| ==> '\n' !in lines[k]
    ensures Extract(JoinLines(lines)) == ExtractLines(lines)
    decreases |lines|
  {
    if lines == [] {
      assert Split("", '\n') == [];
    } else {
      var rest := lines[1..];
      ExtractJoinedLines(rest);
      assert [lines[0]] + rest == lines;
      ExtractLineThenText(lines[0], rest, JoinLines(rest));
    }
  }

  /** One more line in front of a text that reads as `rest`. */
  lemma ExtractLineThenText(line: string, rest: seq<string>, text: string)
    requires '\n' !in line
    requires Extract(text) == ExtractLines(rest)
    ensures Extract(line + "\n" + text) == ExtractLines([line] + rest)
  {
    ExtractConcat(line, text);
    SingleLine(line);
    FlatMapAppend(LineDomains, [line], rest);
    assert FlatMap(LineDomains, [line]) == FlatMap(LineDomains, []) + LineDomains(line);
  }

  /** A line that is `pad` then `x`, where `x` is too short to be, or does
      not begin like, a `server_name` directive, yields nothing. */
  lemma PlainLine(pad: string, x: string)
    requires forall i :: 0 <= i < |pad| ==> IsSpace(pad[i])
    requires x != [] && !IsSpace(x[0]) && !IsSpace(x[|x| - 1])
    requires |x| < |Directive| || x[0] != 's'
    ensures LineDomains(pad + x) == []
  {
    StripPadded(pad, x);
  }

  /** The fixed lines before the `server_name` line yield nothing. */
  lemma OpeningLinesIgnored()
    ensures ExtractLines(OpeningLines) == []
  {
    PlainLine("", "server {");
    assert "" + "server {" == "server {";
    PlainLine(Indent, "listen 80;");
    FlatMapEmpty(LineDomains, OpeningLines);
  }

  /** The fixed lines after the `server_name` line yield nothing. */
  lemma ClosingLinesIgnored()
    ensures ExtractLines(ClosingLines) == []
  {
    forall k | 0 <= k < |ClosingLines|
      ensures LineDomains(ClosingLines[k]) == []
    {
      if k == 0 {
        BlankIndent();
      } else if k == 1 {
        PlainLine(Indent, "location / {");
      } else if k == 2 {
        PlainLine(Indent + Indent, "root /var/www/html;");
      } else if k == 3 {
        PlainLine(Indent + Indent, "index index.html;");
      } else if k == 4 {
        PlainLine(Indent, "}");
      } else {
        PlainLine("", "}");
        assert "" + "}" == "}";
      }
    }
    FlatMapEmpty(LineDomains, ClosingLines);
  }

  /** A line of spaces yields nothing. */
  lemma BlankIndent()
    ensures LineDomains(Indent) == []
  {
    assert Chug(Indent) == "";
  }

  /** The `server_name` line of the block is a directive line for the one hostname. */
  lemma DirectiveOfDefault(domain: string)
    ensures ServerNameLine(domain) == Indent + DirectiveLine([domain])
  {
    assert Join([domain], ' ') == domain;
  }

  /** No line of the block holds a line break, when the domain holds none. */
  lemma DefaultLinesUnbroken(domain: string)
    requires '\n' !in domain
    ensures forall k :: 0 <= k < |DefaultConfigLines(domain)| ==> '\n' !in DefaultConfigLines(domain)[k]
  {
  }

  /** Round trip: the hostnames read from a new file's server block are
      exactly its domain, when the domain is a hostname the reader keeps. */
  lemma ExtractDefaultConfig(domain: string)
    requires IsHostname(domain)
    ensures Extract(DefaultConfig(domain)) == [domain]
  {
    DefaultLinesUnbroken(domain);
    ExtractJoinedLines(DefaultConfigLines(domain));
    ExtractDefaultLines(domain);
  }

  /** The lines of the block, read one by one, yield exactly the domain. */
  lemma ExtractDefaultLines(domain: string)
    requires IsHostname(domain)
    ensures ExtractLines(DefaultConfigLines(domain)) == [domain]
  {
    OpeningLinesIgnored();
    ClosingLinesIgnored();
    ExtractFramed(OpeningLines, ServerNameLine(domain), ClosingLines);
    ServerNameLineYields(domain);
  }

  /** The `server_name` line of the block yields its hostname. */
  lemma ServerNameLineYields(domain: string)
    requires IsHostname(domain)
    ensures LineDomains(ServerNameLine(domain)) == [domain]
  {
    DirectiveOfDefault(domain);
    DirectiveRoundTrip(Indent, [domain]);
  }

  /** Between lines that yield nothing, one line yields what it holds. */
  lemma ExtractFramed(before: seq<string>, line: string, after: seq<string>)
    requires ExtractLines(before) == [] && ExtractLines(after) == []
    ensures ExtractLines(before + [line] + after) == LineDomains(line)
  {
    FlatMapAppend(LineDomains, before + [line], after);
    FlatMapAppend(LineDomains, before, [line]);
    assert FlatMap(LineDomains, [line]) == FlatMap(LineDomains, []) + LineDomains(line);
  }

  /*
   * Keeping the hosts table in step with a written file.
   */

  /** The log line for a hostname the loop found missing. */
  function AddedMessage(domain: string): string {
    "Added domain '" + domain + "' to /etc/hosts"
  }

  /** The table after the loop has handled the hostnames `ds` in order;
      `appendOk(i)` is whether the append for the `i`th one succeeds. */
  function Synced(lines: seq<string>, readable: bool, ds: seq<string>, appendOk: nat -> bool): seq<string>
    decreases |ds|
  {
    if ds == [] then lines
    else
      var before := Synced(lines, readable, ds[..|ds| - 1], appendOk);
      AddedHosts(before, readable, ds[|ds| - 1], appendOk(|ds| - 1))
  }

  /** The log lines of the loop: one for each hostname missing from the
      table when its turn comes, whether or not its append succeeds. */
  function SyncLog(lines: seq<string>, readable: bool, ds: seq<string>, appendOk: nat -> bool): seq<string>
    decreases |ds|
  {
    if ds == [] then []
    else
      var init := ds[..|ds| - 1];
      var missing := !InHosts(Synced(lines, readable, init, appendOk), readable, ds[|ds| - 1]);
      SyncLog(lines, readable, init, appendOk) + (if missing then [AddedMessage(ds[|ds| - 1])] else [])
  }

  /** on_new_file_clicked, on_save_clicked: every extracted hostname that the
      table does not list is added, and the addition is logged. */
  method SyncHosts(hosts: Hosts, domains: seq<string>, appendOk: nat -> bool) returns (log: seq<string>)
    modifies hosts
    ensures hosts.lines == Synced(old(hosts.lines), hosts.readable, domains, appendOk)
    ensures log == SyncLog(old(hosts.lines), hosts.readable, domains, appendOk)
  {
    ghost var start := hosts.lines;
    log := [];
    for i := 0 to |domains|
      invariant hosts.lines == Synced(start, hosts.readable, domains[..i], appendOk)
      invariant log == SyncLog(start, hosts.readable, domains[..i], appendOk)
    {
      assert domains[..i + 1][..i] == domains[..i];
      var present := hosts.DomainExists(domains[i]);
      if !present {
        hosts.AddDomain(domains[i], appendOk(i));
        log := log + [AddedMessage(domains[i])];
      }
    }
    assert domains[..|domains|] == domains;
  }

  /** When the table is readable and every append succeeds, every hostname
      is listed afterwards. */
  lemma {:induction false} SyncListsAll(lines: seq<string>, ds: seq<string>, appendOk: nat -> bool)
    requires forall i :: 0 <= i < |ds| ==> appendOk(i)
    ensures forall k :: 0 <= k < |ds| ==> InHosts(Synced(lines, true, ds, appendOk), true, ds[k])
    decreases |ds|
  {
    if ds != [] {
      var init, last := ds[..|ds| - 1], ds[|ds| - 1];
      SyncListsAll(lines, init, appendOk);
      var before := Synced(lines, true, init, appendOk);
      AddThenExists(before, true, last);
      forall k | 0 <= k < |ds| - 1
        ensures Listed(Synced(lines, true, ds, appendOk), ds[k])
      {
        assert ds[k] == init[k];
        AddKeepsListed(before, true, last, appendOk(|ds| - 1), ds[k]);
      }
    }
  }

  /** The loop keeps every line of the table and appends only entries for
      the hostnames it was given. */
  lemma {:induction false} SyncExtends(lines: seq<string>, readable: bool, ds: seq<string>, appendOk: nat -> bool)
    ensures |lines| <= |Synced(lines, readable, ds, appendOk)|
    ensures Synced(lines, readable, ds, appendOk)[..|lines|] == lines
    ensures forall j :: |lines| <= j < |Synced(lines, readable, ds, appendOk)| ==>
      exists k :: 0 <= k < |ds| && Synced(lines, readable, ds, appendOk)[j] == Entry(ds[k])
    decreases |ds|
  {
    if ds != [] {
      var init := ds[..|ds| - 1];
      SyncExtends(lines, readable, init, appendOk);
      var before := Synced(lines, readable, init, appendOk);
      var after := Synced(lines, readable, ds, appendOk);
      forall j | |lines| <= j < |after|
        ensures exists k :: 0 <= k < |ds| && after[j] == Entry(ds[k])
      {
        if j < |before| {
          var k :| 0 <= k < |init| && before[j] == Entry(init[k]);
          assert after[j] == before[j] && init[k] == ds[k];
        } else {
          assert after[j] == Entry(ds[|ds| - 1]);
        }
      }
    }
  }

  /** A run over hostnames that are all listed already changes and logs nothing. */
  lemma {:induction false} SyncListedUnchanged(lines: seq<string>, ds: seq<string>, appendOk: nat -> bool)
    requires forall k :: 0 <= k < |ds| ==> Listed(lines, ds[k])
    ensures Synced(lines, true, ds, appendOk) == lines
    ensures SyncLog(lines, true, ds, appendOk) == []
    decreases |ds|
  {
    if ds != [] {
      var init := ds[..|ds| - 1];
      assert forall k :: 0 <= k < |init| ==> init[k] == ds[k];
      SyncListedUnchanged(lines, init, appendOk);
    }
  }

  /** A second run after a fully successful one changes and logs nothing,
      whatever its appends would do. */
  lemma SyncIdempotent(lines: seq<string>, ds: seq<string>, appendOk: nat -> bool, again: nat -> bool)
    requires forall i :: 0 <= i < |ds| ==> appendOk(i)
    ensures Synced(Synced(lines, true, ds, appendOk), true, ds, again) == Synced(lines, true, ds, appendOk)
    ensures SyncLog(Synced(lines, true, ds, appendOk), true, ds, again) == []
  {
    SyncListsAll(lines, ds, appendOk);
    SyncListedUnchanged(Synced(lines, true, ds, appendOk), ds, again);
  }

  /** When every append succeeds, the table grows by one line per log line. */
  lemma {:induction false} SyncLogMatchesAppends(lines: seq<string>, readable: bool, ds: seq<string>, appendOk: nat -> bool)
    requires forall i :: 0 <= i < |ds| ==> appendOk(i)
    ensures |Synced(lines, readable, ds, appendOk)| == |lines| + |SyncLog(lines, readable, ds, appendOk)|
    decreases |ds|
  {
    if ds != [] {
      SyncLogMatchesAppends(lines, readable, ds[..|ds| - 1], appendOk);
    }
  }

  /** A hostname whose append fails is still reported as added, and the
      table is left as it was. */
  lemma FailedAppendLogged(lines: seq<string>, readable: bool, domain: string, appendOk: nat -> bool)
    requires !appendOk(0) && !InHosts(lines, readable, domain)
    ensures Synced(lines, readable, [domain], appendOk) == lines
    ensures SyncLog(lines, readable, [domain], appendOk) == [AddedMessage(domain)]
  {
    assert [domain][..0] == [];
  }

  /** A table that cannot be read lists nothing, so every hostname is logged. */
  lemma {:induction false} UnreadableLogsAll(lines: seq<string>, ds: seq<string>, appendOk: nat -> bool)
    ensures |SyncLog(lines, false, ds, appendOk)| == |ds|
    decreases |ds|
  {
    if ds != [] {
      UnreadableLogsAll(lines, ds[..|ds| - 1], appendOk);
    }
  }

  /** Creating a file for a domain the reader keeps lists that domain in a
      readable table, once every append succeeds. */
  lemma NewFileListsDomain(name: string, lines: seq<string>, appendOk: nat -> bool)
    requires IsHostname(Stem(FullFilename(name)))
    requires forall i :: 0 <= i < 1 ==> appendOk(i)
    ensures InHosts(Synced(lines, true, Extract(DefaultConfig(Stem(FullFilename(name)))), appendOk),
                    true, Stem(FullFilename(name)))
  {
    var domain := Stem(FullFilename(name));
    ExtractDefaultConfig(domain);
    SyncListsAll(lines, [domain], appendOk);
  }

  /*
   * Command output and the reload message.
   */

  const CommandError := "Error executing command"
  const ReloadingMessage := "Reloading Nginx..."
  const ReloadedMessage := "Nginx reloaded successfully"
  const TestingMessage := "Testing Nginx configuration..."

  /** execute_command: what the command printed, or a fixed error text when
      it could not be started. */
  function CommandOutput(started: bool, printed: string): (output: string)
    ensures !started ==> output != []
    ensures started ==> output == printed
  {
    if started then printed else CommandError
  }

  /** on_reload_nginx_clicked: no output means success; anything printed is
      passed on as it is. */
  function ReloadMessage(output: string): (message: string)
    ensures message != []
    ensures output != [] ==> message == output
    ensures output == [] ==> message == ReloadedMessage
  {
    if |output| == 0 then ReloadedMessage else output
  }

  /** A reload whose command cannot be started is reported as an error, never as a success. */
  lemma ReloadNotStarted(printed: string)
    ensures ReloadMessage(CommandOutput(false, printed)) == CommandError
    ensures ReloadMessage(CommandOutput(false, printed)) != ReloadedMessage
  {
  }

  /** Success is reported exactly when the command started and printed nothing. */
  lemma ReloadSuccessReported(started: bool, printed: string)
    requires printed != ReloadedMessage
    ensures ReloadMessage(CommandOutput(started, printed)) == ReloadedMessage <==> started && printed == []
  {
  }

  /*
   * The actions of the editor window.
   */

  const EmptyNameError := "Error: Please enter a filename"
  const CreateError := "Error: Failed to create config file"
  const WriteError := "Error: Failed to write config file"
  const NoFileError := "Error: No file selected"
  const TempWriteError := "Error: Failed to write temporary file"
  const SaveError := "Error: Failed to save file"

  function CreatedMessage(full: string): string {
    "Created: " + full
  }

  function SavedMessage(name: string): string {
    "Saved: " + name
  }

  /** The conf.d directory after `sudo touch`: a missing file is created empty. */
  function Touched(files: map<string, string>, full: string): (after: map<string, string>)
    ensures full in after && forall f :: f in files ==> f in after && after[f] == files[f]
  {
    if full in files then files else files[full := ""]
  }

  /** The window state the actions read and update: the name typed into the
      entry, the file open in the editor, the log, the conf.d directory as a
      map from file name to contents, the file list shown, the hosts table
      and the text buffer. */
  class Editor {
    var entry: string
    var currentFile: Option<string>
    var log: seq<string>
    var confFiles: map<string, string>
    var fileList: seq<string>
    const hosts: Hosts
    const buffer: NginxUi.TextBuffer

    constructor (table: Hosts, text: NginxUi.TextBuffer, files: map<string, string>)
      ensures entry == [] && currentFile == None && log == [] && confFiles == files && fileList == []
      ensures hosts == table && buffer == text
    {
      entry := [];
      currentFile := None;
      log := [];
      confFiles := files;
      fileList := [];
      hosts := table;
      buffer := text;
    }

    /** refresh_file_list: `dirOk` is whether conf.d could be opened and
        `dirEntries` what reading it yields. */
    method Refresh(dirOk: bool, dirEntries: seq<string>)
      modifies this
      ensures dirOk ==> fileList == NginxUi.ConfNames(dirEntries)
      ensures !dirOk ==> fileList == old(fileList)
      ensures log == old(log) + [if dirOk then NginxUi.LoadedMessage(|NginxUi.ConfNames(dirEntries)|)
                                 else NginxUi.CannotAccessMessage]
      ensures entry == old(entry) && currentFile == old(currentFile) && confFiles == old(confFiles)
    {
      var listing, message := NginxUi.RefreshFileList(dirOk, dirEntries);
      if listing.Some? {
        fileList := listing.value;
      }
      log := log + [message];
    }

    /** on_new_file_clicked: `touchOk` is whether `sudo touch` succeeds,
        `writeOk` whether the temporary file and the privileged copy both
        succeed, `appendOk(i)` whether the hosts append for the `i`th
        extracted hostname succeeds; `dirOk` and `dirEntries` feed the list
        refresh. */
    method OnNewFile(touchOk: bool, writeOk: bool, appendOk: nat -> bool, dirOk: bool, dirEntries: seq<string>)
      requires '\0' !in entry
      modifies this, hosts
      ensures currentFile == old(currentFile)
      ensures old(entry) == [] ==>
        log == old(log) + [EmptyNameError] && entry == old(entry) && confFiles == old(confFiles)
        && hosts.lines == old(hosts.lines) && fileList == old(fileList)
      ensures old(entry) != [] && !touchOk ==>
        log == old(log) + [CreateError] && entry == old(entry) && confFiles == old(confFiles)
        && hosts.lines == old(hosts.lines) && fileList == old(fileList)
      ensures old(entry) != [] && touchOk && !writeOk ==>
        log == old(log) + [WriteError] && entry == old(entry)
        && confFiles == Touched(old(confFiles), FullFilename(old(entry)))
        && hosts.lines == old(hosts.lines) && fileList == old(fileList)
      ensures old(entry) != [] && touchOk && writeOk ==>
        var full := FullFilename(old(entry));
        var config := DefaultConfig(Stem(full));
        && confFiles == old(confFiles)[full := config]
        && hosts.lines == Synced(old(hosts.lines), hosts.readable, Extract(config), appendOk)
        && log == old(log) + SyncLog(old(hosts.lines), hosts.readable, Extract(config), appendOk)
                  + [if dirOk then NginxUi.LoadedMessage(|NginxUi.ConfNames(dirEntries)|)
                     else NginxUi.CannotAccessMessage]
                  + [CreatedMessage(full)]
        && (dirOk ==> fileList == NginxUi.ConfNames(dirEntries))
        && (!dirOk ==> fileList == old(fileList))
        && entry == []
    {
      var filename := entry;
      if filename == [] {
        log := log + [EmptyNameError];
        return;
      }
      var full := FullFilename(filename);
      if !touchOk {
        log := log + [CreateError];
        return;
      }
      confFiles := Touched(confFiles, full);
      var domain := DomainName(full);
      var config := DefaultConfig(domain);
      if !writeOk {
        log := log + [WriteError];
        return;
      }
      Publish(full, config, appendOk, dirOk, dirEntries);
    }

    /** The success path of on_new_file_clicked: the template is in place,
        its hostnames go to the hosts table, the list is refreshed, the entry
        is cleared and the creation is logged. */
    method Publish(full: string, config: string, appendOk: nat -> bool, dirOk: bool, dirEntries: seq<string>)
      modifies this, hosts
      ensures currentFile == old(currentFile)
      ensures confFiles == old(confFiles)[full := config]
      ensures hosts.lines == Synced(old(hosts.lines), hosts.readable, Extract(config), appendOk)
      ensures log == old(log) + SyncLog(old(hosts.lines), hosts.readable, Extract(config), appendOk)
                     + [if dirOk then NginxUi.LoadedMessage(|NginxUi.ConfNames(dirEntries)|)
                        else NginxUi.CannotAccessMessage]
                     + [CreatedMessage(full)]
      ensures dirOk ==> fileList == NginxUi.ConfNames(dirEntries)
      ensures !dirOk ==> fileList == old(fileList)
      ensures entry == []
    {
      confFiles := confFiles[full := config];
      var domains := ExtractDomainsFromConfig(config);
      var added := SyncHosts(hosts, domains, appendOk);
      log := log + added;
      Refresh(dirOk, dirEntries);
      entry := [];
      log := log + [CreatedMessage(full)];
    }

    /** on_save_clicked: the buffer text replaces the open file; `tempOk` is
        whether the temporary file is written, `copyOk` whether the
        privileged copy succeeds. */
    method OnSave(tempOk: bool, copyOk: bool, appendOk: nat -> bool)
      modifies this, hosts
      ensures entry == old(entry) && currentFile == old(currentFile) && fileList == old(fileList)
      ensures old(currentFile).None? ==>
        log == old(log) + [NoFileError] && confFiles == old(confFiles) && hosts.lines == old(hosts.lines)
      ensures old(currentFile).Some? && !tempOk ==>
        log == old(log) + [TempWriteError] && confFiles == old(confFiles) && hosts.lines == old(hosts.lines)
      ensures old(currentFile).Some? && tempOk && !copyOk ==>
        log == old(log) + [SaveError] && confFiles == old(confFiles) && hosts.lines == old(hosts.lines)
      ensures old(currentFile).Some? && tempOk && copyOk ==>
        var name := old(currentFile).value;
        && confFiles == old(confFiles)[name := buffer.text]
        && hosts.lines == Synced(old(hosts.lines), hosts.readable, Extract(buffer.text), appendOk)
        && log == old(log) + SyncLog(old(hosts.lines), hosts.readable, Extract(buffer.text), appendOk)
                  + [SavedMessage(name)]
    {
      if currentFile.None? {
        log := log + [NoFileError];
        return;
      }
      var name := currentFile.value;
      var content := buffer.text;
      if !tempOk {
        log := log + [TempWriteError];
        return;
      }
      if !copyOk {
        log := log + [SaveError];
        return;
      }
      confFiles := confFiles[name := content];
      var domains := ExtractDomainsFromConfig(content);
      var added := SyncHosts(hosts, domains, appendOk);
      log := log + added + [SavedMessage(name)];
    }

    /** on_test_config_clicked: the command's output goes to the log as it is. */
    method OnTestConfig(started: bool, printed: string)
      modifies this
      ensures log == old(log) + [TestingMessage, CommandOutput(started, printed)]
      ensures entry == old(entry) && currentFile == old(currentFile)
      ensures confFiles == old(confFiles) && fileList == old(fileList)
    {
      log := log + [TestingMessage];
      var output := CommandOutput(started, printed);
      log := log + [output];
    }

    /** on_reload_nginx_clicked */
    method OnReload(started: bool, printed: string)
      modifies this
      ensures log == old(log) + [ReloadingMessage, ReloadMessage(CommandOutput(started, printed))]
      ensures entry == old(entry) && currentFile == old(currentFile)
      ensures confFiles == old(confFiles) && fileList == old(fileList)
    {
      log := log + [ReloadingMessage];
      var output := CommandOutput(started, printed);
      if |output| == 0 {
        log := log + [ReloadedMessage];
      } else {
        log := log + [output];
      }
    }
  }
}
