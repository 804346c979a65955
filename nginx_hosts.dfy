/**
 * src/nginx_hosts.c: collecting the hostnames that `server_name` directives
 * declare in a conf.d file, and keeping the hosts table in step with them.
 */
module NginxHosts {
  import opened GStr

  /** The directive whose arguments are collected; matched as a bare prefix. */
  const Directive := "server_name"

  /** The line appended to the hosts table for a new hostname. */
  function Entry(domain: string): string {
    "127.0.0.1 " + domain
  }

  /*
   * The extractor, as a specification.
   */

  /** A stripped token that the extractor keeps: not empty, not `_`-led, not
      `default_server`, no regex (`~`) or wildcard (`*`) marker in front. */
  predicate Kept(token: string) {
    |token| > 0 && token[0] != '_' && token != "default_server" && token[0] != '~' && token[0] != '*'
  }

  /** What an extracted hostname looks like. */
  predicate IsHostname(h: string) {
    && Kept(h)
    && !IsSpace(h[0]) && !IsSpace(h[|h| - 1])
    && ' ' !in h && '\n' !in h && '#' !in h && ';' !in h
  }

  /** The run of spaces and tabs that follows the directive name. */
  function SkipBlanks(s: string, i: nat): (k: nat)
    requires i <= |s|
    ensures i <= k <= |s|
    ensures k < |s| ==> s[k] != ' ' && s[k] != '\t'
    ensures forall j :: i <= j < k ==> s[j] == ' ' || s[j] == '\t'
    decreases |s| - i
  {
    if i < |s| && (s[i] == ' ' || s[i] == '\t') then SkipBlanks(s, i + 1) else i
  }

  /** Where the argument region that begins at `start` stops: at the first `#`
      or `;`, whichever comes first, or at the end of the line. */
  function ArgumentEnd(s: string, start: nat): (e: nat)
    requires start <= |s|
    ensures start <= e <= |s|
    ensures e < |s| ==> s[e] == '#' || s[e] == ';'
  {
    var comment := IndexOf(s, '#', start);
    var semicolon := IndexOf(s, ';', start);
    if comment.Some? && (semicolon.None? || comment.value < semicolon.value) then comment.value
    else if semicolon.Some? then semicolon.value
    else |s|
  }

  /** The argument region holds neither `#` nor `;`. */
  lemma ArgumentEndFirst(s: string, start: nat)
    requires start <= |s|
    ensures forall j :: start <= j < ArgumentEnd(s, start) ==> s[j] != '#' && s[j] != ';'
  {
    IndexOfFirst(s, '#', start);
    IndexOfFirst(s, ';', start);
  }

  /** One token, stripped, if it passes the filter. */
  function KeepToken(token: string): seq<string> {
    var t := Strip(token);
    if Kept(t) then [t] else []
  }

  /** The kept tokens, each stripped, in order. */
  function KeptTokens(tokens: seq<string>): seq<string> {
    FlatMap(KeepToken, tokens)
  }

  /** The argument region of a stripped line led by `server_name`: past the
      name and the blanks after it, up to the comment or the terminator. */
  function ArgumentRegion(s: string): string
    requires HasPrefix(s, Directive)
  {
    var start := SkipBlanks(s, |Directive|);
    s[start..ArgumentEnd(s, start)]
  }

  /** The hostnames of one stripped, non-comment line. */
  function DirectiveDomains(s: string): seq<string> {
    if !HasPrefix(s, Directive) then []
    else
      var trimmed := Strip(ArgumentRegion(s));
      if trimmed == "" then [] else KeptTokens(Split(trimmed, ' '))
  }

  /** The hostnames of one physical line. */
  function LineDomains(line: string): seq<string> {
    var s := Strip(line);
    if s == "" || s[0] == '#' then [] else DirectiveDomains(s)
  }

  function ExtractLines(lines: seq<string>): seq<string> {
    FlatMap(LineDomains, lines)
  }

  /** extract_domains_from_config */
  function Extract(config: string): seq<string> {
    ExtractLines(Split(config, '\n'))
  }

  /*
   * The extractor as the source runs it.
   */

  /** extract_domains_from_config: line by line, collecting the hostnames of
      every stripped line that is led by `server_name`. */
  method ExtractDomainsFromConfig(config: string) returns (domains: seq<string>)
    ensures domains == Extract(config)
  {
    var lines := Split(config, '\n');
    domains := [];
    var i := 0;
    while i < |lines|
      invariant 0 <= i <= |lines|
      invariant domains == ExtractLines(lines[..i])
    {
      var stripped := Strip(lines[i]);
      if stripped != "" && stripped[0] != '#' && HasPrefix(stripped, Directive) {
        var found := ServerNameArguments(stripped);
        domains := domains + found;
      }
      assert lines[..i + 1][..i] == lines[..i];
      i := i + 1;
    }
    assert lines[..|lines|] == lines;
  }

  /** The body of the `server_name` branch: skip the blanks after the name,
      cut the region at the comment or terminator, split it on spaces. */
  method ServerNameArguments(stripped: string) returns (found: seq<string>)
    requires HasPrefix(stripped, Directive)
    ensures found == DirectiveDomains(stripped)
  {
    var start := |Directive|;
    while start < |stripped| && (stripped[start] == ' ' || stripped[start] == '\t')
      invariant |Directive| <= start <= |stripped|
      invariant SkipBlanks(stripped, start) == SkipBlanks(stripped, |Directive|)
    {
      start := start + 1;
    }
    var comment := IndexOf(stripped, '#', start);
    var semicolon := IndexOf(stripped, ';', start);
    var end := |stripped|;
    if comment.Some? && (semicolon.None? || comment.value < semicolon.value) {
      end := comment.value;
    } else if semicolon.Some? {
      end := semicolon.value;
    }
    var trimmed := Strip(stripped[start..end]);
    found := [];
    if trimmed != "" {
      var tokens := Split(trimmed, ' ');
      found := KeepTokens(tokens);
    }
  }

  /** The token loop: strip each token and keep the ones that pass the filter. */
  method KeepTokens(tokens: seq<string>) returns (kept: seq<string>)
    ensures kept == KeptTokens(tokens)
  {
    kept := [];
    var j := 0;
    while j < |tokens|
      invariant 0 <= j <= |tokens|
      invariant kept == KeptTokens(tokens[..j])
    {
      var token := Strip(tokens[j]);
      if |token| > 0 && token[0] != '_' && token != "default_server" {
        if token[0] != '~' && token[0] != '*' {
          kept := kept + [token];
        }
      }
      assert tokens[..j + 1][..j] == tokens[..j];
      j := j + 1;
    }
    assert tokens[..|tokens|] == tokens;
  }

  /*
   * Properties of the extractor.
   */

  lemma ExtractPieces(s: string)
    ensures ExtractLines(Pieces(s, '\n')) == Extract(s)
  {
    if s == "" {
      assert Pieces(s, '\n') == [""];
      assert ExtractLines([""]) == FlatMap(LineDomains, []) + LineDomains("");
    }
  }

  /** The text before a newline and the text after it are read independently:
      output order is line order, with nothing merged or dropped. */
  lemma ExtractConcat(a: string, b: string)
    ensures Extract(a + "\n" + b) == Extract(a) + Extract(b)
  {
    assert a + "\n" + b == a + ['\n'] + b;
    PiecesAppend(a, '\n', b);
    FlatMapAppend(LineDomains, Pieces(a, '\n'), Pieces(b, '\n'));
    ExtractPieces(a);
    ExtractPieces(b);
  }

  /** A text without newlines is a single line. */
  lemma SingleLine(line: string)
    requires '\n' !in line
    ensures Extract(line) == LineDomains(line)
  {
    if line != "" {
      assert Pieces(line, '\n') == [line];
      assert ExtractLines([line]) == FlatMap(LineDomains, []) + LineDomains(line);
    } else {
      assert Strip(line) == "";
    }
  }

  /** A line that is blank or a comment once stripped contributes nothing,
      wherever it stands. */
  lemma BlankOrCommentLineIgnored(a: string, line: string, b: string)
    requires '\n' !in line
    requires Strip(line) == "" || Strip(line)[0] == '#'
    ensures Extract(a + "\n" + line) == Extract(a)
    ensures Extract(line + "\n" + b) == Extract(b)
  {
    SingleLine(line);
    assert Extract(line) == [];
    ExtractConcat(a, line);
    ExtractConcat(line, b);
  }

  /** Without a line led by `server_name` there are no hostnames. */
  lemma NoDirectiveNoHostnames(lines: seq<string>)
    requires forall k :: 0 <= k < |lines| ==> !HasPrefix(Strip(lines[k]), Directive)
    ensures ExtractLines(lines) == []
  {
    forall k | 0 <= k < |lines| ensures LineDomains(lines[k]) == [] {
    }
    FlatMapEmpty(LineDomains, lines);
  }

  lemma NoDirectiveInText(config: string)
    requires forall k :: 0 <= k < |Split(config, '\n')| ==> !HasPrefix(Strip(Split(config, '\n')[k]), Directive)
    ensures Extract(config) == []
  {
    NoDirectiveNoHostnames(Split(config, '\n'));
  }

  /** The argument region ends at the first `#` or `;`: whatever follows the
      terminator never reaches the output. */
  lemma NothingAfterTerminator(x: string, c: char, y: string)
    requires '#' !in x && ';' !in x && (c == '#' || c == ';')
    ensures DirectiveDomains(Directive + x + [c] + y) == DirectiveDomains(Directive + x)
  {
    var s := Directive + x + [c] + y;
    var t := Directive + x;
    var n := |Directive|;
    assert HasPrefix(s, Directive) && HasPrefix(t, Directive);
    assert t == s[..|t|];
    SkipBlanksPrefix(s, t, n);
    var start := SkipBlanks(t, n);
    assert forall j :: start <= j < |t| ==> s[j] != '#' && s[j] != ';' by {
      forall j | start <= j < |t| ensures s[j] != '#' && s[j] != ';' {
        assert s[j] == x[j - n];
      }
    }
    assert s[|t|] == c;
    assert ArgumentEnd(s, start) == |t| by {
      IndexOfFirst(s, '#', start);
      IndexOfFirst(s, ';', start);
    }
    assert ArgumentEnd(t, start) == |t| by {
      IndexOfFirst(t, '#', start);
      IndexOfFirst(t, ';', start);
    }
    assert s[start..|t|] == t[start..|t|];
  }

  /** Skipping blanks in a longer text stops at the same place when the shorter one ends in a non-blank or the longer has a non-blank right after it. */
  lemma {:induction false} SkipBlanksPrefix(s: string, t: string, i: nat)
    requires t <= s && i <= |t| < |s|
    requires s[|t|] != ' ' && s[|t|] != '\t'
    ensures SkipBlanks(s, i) == SkipBlanks(t, i)
    decreases |t| - i
  {
    if i < |t| && (t[i] == ' ' || t[i] == '\t') {
      SkipBlanksPrefix(s, t, i + 1);
    }
  }

  /** Each extracted hostname of a line lies within a kept token. */
  lemma KeptTokensMember(tokens: seq<string>, h: string)
    requires h in KeptTokens(tokens)
    ensures exists j :: 0 <= j < |tokens| && h == Strip(tokens[j]) && Kept(h)
  {
    FlatMapMember(KeepToken, tokens, h);
  }

  lemma InfixExcludes(t: string, s: string, c: char)
    requires IsInfix(t, s) && c !in s
    ensures c !in t
  {
    var i: nat :| i <= |s| && OccursAt(s, t, i);
    forall k | 0 <= k < |t| ensures t[k] != c {
      assert t[k] == s[i..i + |t|][k] == s[i + k];
    }
  }

  /** A kept token of an argument region is a well-formed hostname lying within the region. */
  lemma TokenShape(region: string, j: nat, h: string)
    requires '#' !in region && ';' !in region && '\n' !in region
    requires j < |Pieces(Strip(region), ' ')|
    requires h == Strip(Pieces(Strip(region), ' ')[j]) && Kept(h)
    ensures IsHostname(h) && IsInfix(h, region)
  {
    var trimmed := Strip(region);
    var piece := Pieces(trimmed, ' ')[j];
    PiecesAreInfixes(trimmed, ' ', j);
    PiecesExclude(trimmed, ' ', j);
    StripIsInfix(piece);
    StripIsInfix(region);
    StripEdges(piece);
    InfixTrans(h, piece, trimmed);
    InfixTrans(h, trimmed, region);
    InfixExcludes(h, region, '#');
    InfixExcludes(h, region, ';');
    InfixExcludes(h, region, '\n');
    InfixExcludes(h, piece, ' ');
  }

  /** The argument region is a piece of the line with no comment sign or terminator in it. */
  lemma RegionShape(s: string)
    requires HasPrefix(s, Directive)
    ensures IsInfix(ArgumentRegion(s), s)
    ensures '#' !in ArgumentRegion(s) && ';' !in ArgumentRegion(s)
  {
    var start := SkipBlanks(s, |Directive|);
    ArgumentEndFirst(s, start);
    assert OccursAt(s, ArgumentRegion(s), start);
  }

  /** Every hostname a line yields is a well-formed token lying within that line. */
  lemma LineDomainsShape(line: string, h: string)
    requires '\n' !in line && h in LineDomains(line)
    ensures IsHostname(h) && IsInfix(h, line)
  {
    var s := Strip(line);
    assert HasPrefix(s, Directive);
    var region := ArgumentRegion(s);
    var tokens := Pieces(Strip(region), ' ');
    assert h in KeptTokens(tokens);
    KeptTokensMember(tokens, h);
    var j :| 0 <= j < |tokens| && h == Strip(tokens[j]) && Kept(h);
    RegionShape(s);
    StripIsInfix(line);
    InfixTrans(region, s, line);
    InfixExcludes(region, line, '\n');
    TokenShape(region, j, h);
    InfixTrans(h, region, line);
  }

  /** Every extracted hostname is well formed and is a contiguous piece of one
      line of the text. */
  lemma ExtractedShape(config: string, h: string)
    requires h in Extract(config)
    ensures IsHostname(h)
    ensures exists line :: line in Split(config, '\n') && IsInfix(h, line)
  {
    var lines := Split(config, '\n');
    FlatMapMember(LineDomains, lines, h);
    var k :| 0 <= k < |lines| && h in LineDomains(lines[k]);
    assert lines == Pieces(config, '\n');
    PiecesExclude(config, '\n', k);
    LineDomainsShape(lines[k], h);
  }

  /** Moving the start of the argument search into a suffix moves its end with it. */
  lemma ArgumentEndDrop(s: string, d: nat, i: nat)
    requires d + i <= |s|
    ensures ArgumentEnd(s, d + i) == d + ArgumentEnd(s[d..], i)
  {
    IndexOfDrop(s, '#', d, i);
    IndexOfDrop(s, ';', d, i);
  }

  /** The prefix test has no word boundary: whatever is glued to `server_name`
      is read as if a space separated it, so `server_names a;` reads as
      `server_name s a;`. */
  lemma GluedSuffix(rest: string)
    requires rest == "" || (rest[0] != ' ' && rest[0] != '\t')
    ensures DirectiveDomains(Directive + rest) == DirectiveDomains(Directive + " " + rest)
  {
    var s1 := Directive + rest;
    var s2 := Directive + " " + rest;
    assert HasPrefix(s1, Directive) && HasPrefix(s2, Directive);
    assert SkipBlanks(s1, 11) == 11;
    assert SkipBlanks(s2, 11) == 12 by {
      assert s2[11] == ' ';
      assert SkipBlanks(s2, 12) == 12;
    }
    assert s1[11..] == rest && s2[12..] == rest;
    ArgumentEndDrop(s1, 11, 0);
    ArgumentEndDrop(s2, 12, 0);
    var e := ArgumentEnd(rest, 0);
    assert ArgumentRegion(s1) == s1[11..11 + e] == rest[..e];
    assert ArgumentRegion(s2) == s2[12..12 + e] == rest[..e];
  }

  /** Stripping a hostname leaves it as it is, and the filter keeps it. */
  lemma {:induction false} KeptHostnames(ds: seq<string>)
    requires forall k :: 0 <= k < |ds| ==> IsHostname(ds[k])
    ensures KeptTokens(ds) == ds
    decreases |ds|
  {
    if ds != [] {
      var d := ds[|ds| - 1];
      StripPadded("", d);
      assert "" + d == d;
      KeptHostnames(ds[..|ds| - 1]);
      assert ds == ds[..|ds| - 1] + [d];
    }
  }

  /** A region free of `#` and `;` ends at the terminator that follows it. */
  lemma ArgumentEndAtTerminator(t: string)
    requires '#' !in t && ';' !in t
    ensures ArgumentEnd(t + ";", 0) == |t|
  {
    var s := t + ";";
    forall i | 0 <= i < |s| ensures s[i] != '#' {
      if i < |t| {
        assert s[i] == t[i];
      }
    }
    IndexOfNone(s, '#', 0);
    forall i | 0 <= i < |t| ensures s[i] != ';' {
      assert s[i] == t[i];
    }
    IndexOfAt(s, ';', 0, |t|);
  }

  /** After `server_name`, one space and a region with no `#` or `;` and no
      leading blank, the argument region is exactly that region. */
  lemma ArgumentRegionOf(args: string)
    requires args != [] && !IsSpace(args[0])
    requires '#' !in args && ';' !in args
    ensures HasPrefix(Directive + " " + args + ";", Directive)
    ensures ArgumentRegion(Directive + " " + args + ";") == args
  {
    var s := Directive + " " + args + ";";
    assert HasPrefix(s, Directive);
    assert SkipBlanks(s, 11) == 12 by {
      assert s[11] == ' ' && s[12] == args[0];
    }
    assert s[12..] == args + ";";
    ArgumentEndDrop(s, 12, 0);
    ArgumentEndAtTerminator(args);
  }

  /** A `server_name` line for the hostnames `ds`, separated by single spaces. */
  function DirectiveLine(ds: seq<string>): string
    requires |ds| >= 1
  {
    Directive + " " + Join(ds, ' ') + ";"
  }

  /** The hostnames of a directive whose argument region needs no stripping. */
  lemma DirectiveDomainsOfRegion(s: string, region: string)
    requires HasPrefix(s, Directive) && ArgumentRegion(s) == region
    requires region != [] && Strip(region) == region
    ensures DirectiveDomains(s) == KeptTokens(Pieces(region, ' '))
  {
  }

  /** A `server_name` directive written for a list of hostnames, separated by
      single spaces, yields exactly that list. */
  lemma DirectiveDomainsOf(ds: seq<string>)
    requires |ds| >= 1 && forall k :: 0 <= k < |ds| ==> IsHostname(ds[k])
    ensures DirectiveDomains(DirectiveLine(ds)) == ds
  {
    var args := Join(ds, ' ');
    JoinEnds(ds, ' ');
    JoinExcludes(ds, ' ', '#');
    JoinExcludes(ds, ' ', ';');
    ArgumentRegionOf(args);
    StripPadded("", args);
    assert "" + args == args;
    DirectiveDomainsOfRegion(Directive + " " + args + ";", args);
    PiecesJoin(ds, ' ');
    KeptHostnames(ds);
  }

  /** The hostnames of a line whose stripped form is a directive line. */
  lemma LineDomainsOfStripped(line: string, s: string)
    requires Strip(line) == s && s != [] && s[0] != '#'
    ensures LineDomains(line) == DirectiveDomains(s)
  {
  }

  /** Round trip: such a directive, indented by any whitespace, is one line
      of the file whose hostnames are exactly the list. */
  lemma DirectiveRoundTrip(pad: string, ds: seq<string>)
    requires forall i :: 0 <= i < |pad| ==> IsSpace(pad[i])
    requires |ds| >= 1 && forall k :: 0 <= k < |ds| ==> IsHostname(ds[k])
    ensures LineDomains(pad + DirectiveLine(ds)) == ds
  {
    var s := DirectiveLine(ds);
    assert s[0] == 's' && s[|s| - 1] == ';';
    StripPadded(pad, s);
    LineDomainsOfStripped(pad + s, s);
    DirectiveDomainsOf(ds);
  }

  /** The pieces of the line `server_names a;`. */
  lemma GluedLineParts(line: string)
    requires line == "server_names a;"
    ensures line == Directive + "s a;"
    ensures Directive + " " + "s a;" == DirectiveLine(["s", "a"])
    ensures '\n' !in line && Strip(line) == line && line[0] != '#'
    ensures IsHostname("s") && IsHostname("a")
  {
    assert Join(["s", "a"], ' ') + ";" == "s a;";
    StripPadded("", line);
    assert "" + line == line;
  }

  /** `server_names a;` yields `s` and `a`. */
  lemma NoWordBoundary(line: string)
    requires line == "server_names a;"
    ensures Extract(line) == ["s", "a"]
  {
    GluedLineParts(line);
    SingleLine(line);
    LineDomainsOfStripped(line, line);
    GluedSuffix("s a;");
    DirectiveDomainsOf(["s", "a"]);
  }

  /** `server_name a<TAB>b;` yields the single hostname `a<TAB>b`: only spaces split. */
  lemma TabInsideToken(line: string)
    requires line == "server_name a\tb;"
    ensures Extract(line) == ["a\tb"]
  {
    TabLineParts(line);
    SingleLine(line);
    DirectiveRoundTrip("", ["a\tb"]);
  }

  /** The pieces of the line `server_name a<TAB>b;`. */
  lemma TabLineParts(line: string)
    requires line == "server_name a\tb;"
    ensures line == "" + DirectiveLine(["a\tb"]) && '\n' !in line
    ensures IsHostname("a\tb")
  {
    assert Join(["a\tb"], ' ') == "a\tb";
  }

  /** A single line led by `server_name`, with no blank at its end, yields
      the hostnames of its directive. */
  lemma DirectiveAlone(line: string)
    requires HasPrefix(line, Directive) && '\n' !in line && !IsSpace(line[|line| - 1])
    ensures Extract(line) == DirectiveDomains(line)
  {
    SingleLine(line);
    assert line[0] == 's';
    StripPadded("", line);
    assert "" + line == line;
    LineDomainsOfStripped(line, line);
  }

  /** A one-line directive for the hostnames `ds` yields exactly `ds`. */
  lemma DirectiveLineParts(line: string, ds: seq<string>)
    requires |ds| >= 1 && forall k :: 0 <= k < |ds| ==> IsHostname(ds[k])
    requires line == DirectiveLine(ds)
    ensures Extract(line) == ds
  {
    JoinExcludes(ds, ' ', '\n');
    assert '\n' !in line && HasPrefix(line, Directive);
    DirectiveAlone(line);
    DirectiveDomainsOf(ds);
  }

  /** `server_name example.com www.example.com;` yields both names, in order. */
  lemma TwoHostnames(line: string)
    requires line == "server_name example.com www.example.com;"
    ensures Extract(line) == ["example.com", "www.example.com"]
  {
    var ds := ExampleLine(line);
    DirectiveLineParts(line, ds);
  }

  /** The example line is the directive line of its two hostnames. */
  lemma ExampleLine(line: string) returns (ds: seq<string>)
    requires line == "server_name example.com www.example.com;"
    ensures ds == ["example.com", "www.example.com"] && line == DirectiveLine(ds)
    ensures |ds| >= 1 && forall k :: 0 <= k < |ds| ==> IsHostname(ds[k])
  {
    ds := ["example.com", "www.example.com"];
    ExampleHostname(ds[0]);
    ExampleHostname(ds[1]);
    TwoTokenLine(ds[0], ds[1]);
    assert ds == [ds[0], ds[1]];
  }

  /** The two hostnames of the example are well formed. */
  lemma ExampleHostname(h: string)
    requires h == "example.com" || h == "www.example.com"
    ensures IsHostname(h)
  {
  }

  /** Whatever follows the `;` of a directive line on the same line is
      ignored: the line still yields exactly its hostnames. */
  lemma TextAfterTerminator(ds: seq<string>, y: string)
    requires |ds| >= 1 && forall k :: 0 <= k < |ds| ==> IsHostname(ds[k])
    requires '\n' !in y
    ensures Extract(DirectiveLine(ds) + y) == ds
  {
    var x := " " + Join(ds, ' ');
    JoinExcludes(ds, ' ', '#');
    JoinExcludes(ds, ' ', ';');
    JoinExcludes(ds, ' ', '\n');
    var y' := Chomp(y);
    ChompIsPrefix(y);
    assert '\n' !in y' by {
      forall i | 0 <= i < |y'| ensures y'[i] != '\n' {
        assert y'[i] == y[i];
      }
    }
    DirectiveLineSplit(ds, x, y);
    DirectiveLineSplit(ds, x, y');
    TerminatedLineShape(x, "");
    TerminatedLineShape(x, y');
    var line := DirectiveLine(ds) + y;
    assert '\n' !in line;
    SingleLine(line);
    assert Strip(line) == DirectiveLine(ds) + y' by {
      assert Chug(line) == line;
      ChompAppend(DirectiveLine(ds), y);
    }
    LineDomainsOfStripped(line, DirectiveLine(ds) + y');
    NothingAfterTerminator(x, ';', y');
    NothingAfterTerminator(x, ';', "");
    DirectiveDomainsOf(ds);
  }

  /** A directive line, cut at its `;`. */
  lemma DirectiveLineSplit(ds: seq<string>, x: string, y: string)
    requires |ds| >= 1 && x == " " + Join(ds, ' ')
    ensures DirectiveLine(ds) == Directive + x + [';'] + ""
    ensures DirectiveLine(ds) + y == Directive + x + [';'] + y
  {
  }

  /** A line made of `server_name`, arguments, `;` and a tail is led by the
      directive and holds no line break when the parts hold none. */
  lemma TerminatedLineShape(x: string, y: string)
    requires '\n' !in x && '\n' !in y
    ensures HasPrefix(Directive + x + [';'] + y, Directive)
    ensures '\n' !in Directive + x + [';'] + y
    ensures (Directive + x + [';'] + y)[0] == 's'
  {
    var line := Directive + x + [';'] + y;
    assert line[..|Directive|] == Directive;
  }

  /** `server_name site.com; # trailing comment` yields `site.com` only. */
  lemma TrailingComment(line: string)
    requires line == "server_name site.com; # trailing comment"
    ensures Extract(line) == ["site.com"]
  {
    assert Join(["site.com"], ' ') == "site.com";
    assert line == DirectiveLine(["site.com"]) + " # trailing comment";
    TextAfterTerminator(["site.com"], " # trailing comment");
  }

  /** A directive whose tokens the filter drops, every one, yields nothing. */
  lemma AllDroppedDirective(ts: seq<string>)
    requires |ts| >= 1 && forall k :: 0 <= k < |ts| ==> ts[k] != [] && !IsSpace(ts[k][0]) && !IsSpace(ts[k][|ts[k]| - 1])
    requires forall k :: 0 <= k < |ts| ==> ' ' !in ts[k] && '#' !in ts[k] && ';' !in ts[k]
    requires forall k :: 0 <= k < |ts| ==> !Kept(ts[k])
    ensures DirectiveDomains(DirectiveLine(ts)) == []
  {
    var args := Join(ts, ' ');
    JoinEnds(ts, ' ');
    JoinExcludes(ts, ' ', '#');
    JoinExcludes(ts, ' ', ';');
    ArgumentRegionOf(args);
    StripPadded("", args);
    assert "" + args == args;
    DirectiveDomainsOfRegion(DirectiveLine(ts), args);
    PiecesJoin(ts, ' ');
    forall k | 0 <= k < |ts| ensures KeepToken(ts[k]) == [] {
      StripPadded("", ts[k]);
      assert "" + ts[k] == ts[k];
    }
    FlatMapEmpty(KeepToken, ts);
  }

  /** The same, read as a whole text. */
  lemma AllDropped(line: string, ts: seq<string>)
    requires |ts| >= 1 && forall k :: 0 <= k < |ts| ==> ts[k] != [] && !IsSpace(ts[k][0]) && !IsSpace(ts[k][|ts[k]| - 1])
    requires forall k :: 0 <= k < |ts| ==> ' ' !in ts[k] && '#' !in ts[k] && ';' !in ts[k] && '\n' !in ts[k]
    requires forall k :: 0 <= k < |ts| ==> !Kept(ts[k])
    requires line == DirectiveLine(ts)
    ensures Extract(line) == []
  {
    AllDroppedDirective(ts);
    JoinExcludes(ts, ' ', '\n');
    assert '\n' !in line && HasPrefix(line, Directive);
    DirectiveAlone(line);
  }

  /** `server_name _ default_server;` yields nothing. */
  lemma CatchAllDropped(line: string)
    requires line == "server_name _ default_server;"
    ensures Extract(line) == []
  {
    var ts := CatchAllLine(line);
    AllDropped(line, ts);
  }

  /** The catch-all line is the directive line of two tokens the filter drops. */
  lemma CatchAllLine(line: string) returns (ts: seq<string>)
    requires line == "server_name _ default_server;"
    ensures ts == ["_", "default_server"] && line == DirectiveLine(ts)
    ensures |ts| >= 1 && forall k :: 0 <= k < |ts| ==> ts[k] != [] && !IsSpace(ts[k][0]) && !IsSpace(ts[k][|ts[k]| - 1])
    ensures forall k :: 0 <= k < |ts| ==> ' ' !in ts[k] && '#' !in ts[k] && ';' !in ts[k] && '\n' !in ts[k]
    ensures forall k :: 0 <= k < |ts| ==> !Kept(ts[k])
  {
    ts := ["_", "default_server"];
    CatchAllTokens(ts);
    TwoTokenLine(ts[0], ts[1]);
    assert ts == [ts[0], ts[1]];
  }

  /** `_` and `default_server`: well-formed tokens that the filter drops. */
  lemma CatchAllTokens(ts: seq<string>)
    requires ts == ["_", "default_server"]
    ensures |ts| >= 1 && forall k :: 0 <= k < |ts| ==> ts[k] != [] && !IsSpace(ts[k][0]) && !IsSpace(ts[k][|ts[k]| - 1])
    ensures forall k :: 0 <= k < |ts| ==> ' ' !in ts[k] && '#' !in ts[k] && ';' !in ts[k] && '\n' !in ts[k]
    ensures forall k :: 0 <= k < |ts| ==> !Kept(ts[k])
  {
  }

  /** `server_name *.example.com ~^regex$;` yields nothing: wildcard and
      regex markers are dropped. */
  lemma PatternsDropped(line: string)
    requires line == "server_name *.example.com ~^regex$;"
    ensures Extract(line) == []
  {
    var ts := PatternLine(line);
    AllDropped(line, ts);
  }

  /** The pattern line is the directive line of its two pattern tokens. */
  lemma PatternLine(line: string) returns (ts: seq<string>)
    requires line == "server_name *.example.com ~^regex$;"
    ensures ts == ["*.example.com", "~^regex$"] && line == DirectiveLine(ts)
    ensures |ts| >= 1 && forall k :: 0 <= k < |ts| ==> ts[k] != [] && !IsSpace(ts[k][0]) && !IsSpace(ts[k][|ts[k]| - 1])
    ensures forall k :: 0 <= k < |ts| ==> ' ' !in ts[k] && '#' !in ts[k] && ';' !in ts[k] && '\n' !in ts[k]
    ensures forall k :: 0 <= k < |ts| ==> !Kept(ts[k])
  {
    ts := ["*.example.com", "~^regex$"];
    PatternTokens(ts);
    TwoTokenLine(ts[0], ts[1]);
    assert ts == [ts[0], ts[1]];
  }

  /** A directive line for two tokens. */
  lemma TwoTokenLine(a: string, b: string)
    ensures DirectiveLine([a, b]) == Directive + " " + a + " " + b + ";"
  {
    assert Join([a, b], ' ') == a + [' '] + Join([b], ' ');
  }

  /** The two pattern tokens: well-formed tokens that the filter drops. */
  lemma PatternTokens(ts: seq<string>)
    requires ts == ["*.example.com", "~^regex$"]
    ensures |ts| >= 1 && forall k :: 0 <= k < |ts| ==> ts[k] != [] && !IsSpace(ts[k][0]) && !IsSpace(ts[k][|ts[k]| - 1])
    ensures forall k :: 0 <= k < |ts| ==> ' ' !in ts[k] && '#' !in ts[k] && ';' !in ts[k] && '\n' !in ts[k]
    ensures forall k :: 0 <= k < |ts| ==> !Kept(ts[k])
  {
    forall k | 0 <= k < |ts|
      ensures ts[k] != [] && !IsSpace(ts[k][0]) && !IsSpace(ts[k][|ts[k]| - 1])
      ensures ' ' !in ts[k] && '#' !in ts[k] && ';' !in ts[k] && '\n' !in ts[k]
      ensures !Kept(ts[k])
    {
      if k == 0 {
        PatternToken(ts[0], '*');
      } else {
        PatternToken(ts[1], '~');
      }
    }
  }

  /** One pattern token: led by its marker, with no blank or separator in it. */
  lemma PatternToken(t: string, marker: char)
    requires (t == "*.example.com" && marker == '*') || (t == "~^regex$" && marker == '~')
    ensures t != [] && t[0] == marker && !IsSpace(t[0]) && !IsSpace(t[|t| - 1])
    ensures ' ' !in t && '#' !in t && ';' !in t && '\n' !in t
    ensures !Kept(t)
  {
  }

  /*
   * The hosts table. Each entry is one line of the table without its line
   * break; `readable` says whether the table, which exists, could be opened
   * for reading, and stays so while the table is in use.
   */

  /** A line that the membership test skips: its first byte is `#`. */
  predicate IsCommentEntry(line: string) {
    |line| > 0 && line[0] == '#'
  }

  /** Some line that is not skipped holds `domain` as a plain substring. */
  predicate Listed(lines: seq<string>, domain: string) {
    exists k :: 0 <= k < |lines| && !IsCommentEntry(lines[k]) && IsInfix(domain, lines[k])
  }

  /** domain_exists_in_hosts: a table that cannot be read lists nothing. */
  predicate InHosts(lines: seq<string>, readable: bool, domain: string) {
    readable && Listed(lines, domain)
  }

  /** add_domain_to_hosts: the table after the add; `appendOk` is whether the
      privileged append succeeded. */
  function AddedHosts(lines: seq<string>, readable: bool, domain: string, appendOk: bool): seq<string> {
    if InHosts(lines, readable, domain) || !appendOk then lines else lines + [Entry(domain)]
  }

  class Hosts {
    var lines: seq<string>
    const readable: bool

    constructor (contents: seq<string>, canRead: bool)
      ensures lines == contents && readable == canRead
    {
      lines := contents;
      readable := canRead;
    }

    /** domain_exists_in_hosts: scan the lines in order, skip comment lines,
        stop at the first line that holds the domain. */
    method DomainExists(domain: string) returns (found: bool)
      ensures found == InHosts(lines, readable, domain)
    {
      if !readable {
        return false;
      }
      found := false;
      var i := 0;
      while i < |lines|
        invariant 0 <= i <= |lines|
        invariant forall k :: 0 <= k < i ==> IsCommentEntry(lines[k]) || !IsInfix(domain, lines[k])
      {
        var line := lines[i];
        if IsCommentEntry(line) {
          i := i + 1;
          continue;
        }
        FindIsInfix(line, domain);
        if Find(line, domain, 0).Some? {
          found := true;
          break;
        }
        i := i + 1;
      }
    }

    /** add_domain_to_hosts: check, then append `127.0.0.1 <domain>`. */
    method AddDomain(domain: string, appendOk: bool)
      modifies this
      ensures lines == AddedHosts(old(lines), readable, domain, appendOk)
    {
      var present := DomainExists(domain);
      if present {
        return;
      }
      if appendOk {
        lines := lines + [Entry(domain)];
      }
    }
  }

  /** The entry written for a domain is not skipped and holds the domain. */
  lemma EntryListed(domain: string)
    ensures !IsCommentEntry(Entry(domain)) && IsInfix(domain, Entry(domain))
  {
    var e := Entry(domain);
    var i: nat := 10;
    assert e[i..i + |domain|] == domain;
    assert i <= |e| && OccursAt(e, domain, i);
  }

  /** After an add on a readable table whose append succeeds, the domain is listed. */
  lemma AddThenExists(lines: seq<string>, readable: bool, domain: string)
    requires readable
    ensures InHosts(AddedHosts(lines, readable, domain, true), readable, domain)
  {
    if !InHosts(lines, readable, domain) {
      var after := lines + [Entry(domain)];
      EntryListed(domain);
      assert after[|lines|] == Entry(domain);
    }
  }

  /** An add never drops or changes a line, so whatever was listed stays listed. */
  lemma AddKeepsListed(lines: seq<string>, readable: bool, domain: string, appendOk: bool, other: string)
    requires Listed(lines, other)
    ensures Listed(AddedHosts(lines, readable, domain, appendOk), other)
  {
    var after := AddedHosts(lines, readable, domain, appendOk);
    var k :| 0 <= k < |lines| && !IsCommentEntry(lines[k]) && IsInfix(other, lines[k]);
    assert after[k] == lines[k];
  }

  /** An add leaves a table that already lists the domain as it is, and
      appends exactly one entry otherwise. */
  lemma AddAppendsAtMostOnce(lines: seq<string>, readable: bool, domain: string, appendOk: bool)
    ensures InHosts(lines, readable, domain) ==> AddedHosts(lines, readable, domain, appendOk) == lines
    ensures !InHosts(lines, readable, domain) && appendOk ==>
      AddedHosts(lines, readable, domain, appendOk) == lines + ["127.0.0.1 " + domain]
  {
  }

  /** Adding twice equals adding once on a readable table, once the first
      append has succeeded. */
  lemma AddIdempotent(lines: seq<string>, readable: bool, domain: string, again: bool)
    requires readable
    ensures AddedHosts(AddedHosts(lines, readable, domain, true), readable, domain, again)
         == AddedHosts(lines, readable, domain, true)
  {
    AddThenExists(lines, readable, domain);
  }

  /** On a table that cannot be read, every add appends again. */
  lemma UnreadableAppendsAgain(lines: seq<string>, domain: string)
    ensures AddedHosts(AddedHosts(lines, false, domain, true), false, domain, true)
         == lines + [Entry(domain), Entry(domain)]
  {
  }

  /** The test is a plain substring test: part of a word counts, and only a
      `#` in the very first column makes a line a comment. */
  lemma SubstringMembership(lines: seq<string>)
    requires lines == ["  # 127.0.0.1 example.com"]
    ensures Listed(lines, "ample")
  {
    var line := lines[0];
    var i: nat := 16;
    assert line[i..i + 5] == "ample";
    assert i <= |line| && OccursAt(line, "ample", i);
  }
}
