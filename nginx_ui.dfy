/**
 * src/nginx_ui.c: the `.conf` filter of the file list and the tag spans that
 * the fallback syntax highlighter lays over the editor text.
 *
 * Text is ASCII, one byte per character, with lines ended by `\n` only.
 */
module NginxUi {
  import opened GStr

  /*
   * refresh_file_list
   */

  const ConfDir := "/etc/nginx/conf.d"
  const ConfSuffix := ".conf"

  /** A directory entry listed by the editor, as a one-element or empty list. */
  function ConfEntry(name: string): seq<string> {
    if HasSuffix(name, ConfSuffix) then [name] else []
  }

  /** The entries ending in `.conf`, in the order the directory yields them. */
  function ConfNames(names: seq<string>): seq<string> {
    FlatMap(ConfEntry, names)
  }

  /** The log line after a successful listing. */
  function LoadedMessage(count: nat): string {
    "Loaded " + Decimal(count) + " config file(s) from " + ConfDir
  }

  const CannotAccessMessage := "Error: Cannot access /etc/nginx/conf.d/"

  /** refresh_file_list: `entries` is what the directory read yields, when
      the directory could be opened. The listing is None when the file list
      is left as it was. */
  method RefreshFileList(dirOk: bool, entries: seq<string>) returns (listing: Option<seq<string>>, message: string)
    ensures dirOk ==> listing == Some(ConfNames(entries)) && message == LoadedMessage(|ConfNames(entries)|)
    ensures !dirOk ==> listing == None && message == CannotAccessMessage
  {
    if !dirOk {
      return None, CannotAccessMessage;
    }
    var files := [];
    var i := 0;
    while i < |entries|
      invariant 0 <= i <= |entries|
      invariant files == ConfNames(entries[..i])
    {
      if HasSuffix(entries[i], ConfSuffix) {
        files := files + [entries[i]];
      }
      assert entries[..i + 1][..i] == entries[..i];
      i := i + 1;
    }
    assert entries[..|entries|] == entries;
    listing := Some(files);
    message := LoadedMessage(|files|);
  }

  /** The count in the listing message is printed in decimal, with no
      leading zero, and reads back as the number of files listed. */
  lemma LoadedMessageCount(entries: seq<string>)
    ensures var m := LoadedMessage(|ConfNames(entries)|);
      && |m| >= 46
      && var d := m[7..|m| - 38];
      && AllDigits(d)
      && (d[0] != '0' || |ConfNames(entries)| == 0)
      && DecimalValue(d) == |ConfNames(entries)|
  {
    var n := |ConfNames(entries)|;
    var m := LoadedMessage(n);
    var d := Decimal(n);
    var tail := " config file(s) from " + ConfDir;
    assert |"Loaded "| == 7 && |tail| == 38;
    assert m == "Loaded " + d + tail;
    assert |m| == 7 + |d| + 38;
    assert m[7..|m| - 38] == d;
    DecimalRoundTrip(n);
  }

  /** Exactly the `.conf` entries are listed. */
  lemma ConfNamesMember(names: seq<string>, x: string)
    ensures x in ConfNames(names) <==> x in names && HasSuffix(x, ConfSuffix)
  {
    if x in ConfNames(names) {
      FlatMapMember(ConfEntry, names, x);
    }
    if x in names && HasSuffix(x, ConfSuffix) {
      var k :| 0 <= k < |names| && names[k] == x;
      FlatMapIncludes(ConfEntry, names, k, x);
    }
  }

  /** Read order is kept: listing two runs of entries lists the first run,
      then the second. */
  lemma ConfNamesOrder(a: seq<string>, b: seq<string>)
    ensures ConfNames(a + b) == ConfNames(a) + ConfNames(b)
  {
    FlatMapAppend(ConfEntry, a, b);
  }

  /*
   * apply_syntax_highlighting
   */

  datatype Category = Comment | Str | Keyword | Directive

  /** A tag applied to the characters `start` up to, not including, `end`. */
  datatype Span = Span(start: nat, end: nat, category: Category)

  /** The keyword table, in the order the highlighter scans it. */
  const Keywords: seq<string> := [
    "server", "listen", "server_name", "location", "root", "index",
    "proxy_pass", "proxy_set_header", "access_log", "error_log",
    "return", "rewrite", "try_files", "include", "if", "set",
    "upstream", "worker_processes", "events", "http", "gzip",
    "ssl_certificate", "ssl_certificate_key", "ssl_protocols",
    "client_max_body_size", "keepalive_timeout", "types"
  ]

  /** Five keywords are tagged as directives; every other keyword is tagged as a keyword. */
  function KeywordCategory(kw: string): Category {
    if kw == "server" || kw == "location" || kw == "upstream" || kw == "http" || kw == "events"
    then Directive else Keyword
  }

  /** A non-empty run of lower-case letters and `_`, which are all word characters. */
  predicate IsLowerWord(s: string) {
    s != [] && forall j :: 0 <= j < |s| ==> 'a' <= s[j] <= 'z' || s[j] == '_'
  }

  lemma KeywordsLow()
    ensures forall i :: 0 <= i < 9 ==> IsLowerWord(Keywords[i])
  {
  }

  lemma KeywordsMid()
    ensures forall i :: 9 <= i < 18 ==> IsLowerWord(Keywords[i])
  {
  }

  lemma KeywordsHigh()
    ensures forall i :: 18 <= i < 27 ==> IsLowerWord(Keywords[i])
  {
  }

  /** Every entry of the table is a non-empty run of word characters. */
  predicate IsWordTable(table: seq<string>) {
    forall k :: 0 <= k < |table| ==> IsLowerWord(table[k])
  }

  lemma KeywordsAreWords()
    ensures |Keywords| == 27 && IsWordTable(Keywords)
  {
    KeywordsLow();
    KeywordsMid();
    KeywordsHigh();
  }

  /** `s` is where a line begins: at the start, or just after a `\n`. */
  predicate IsLineStart(text: string, s: nat) {
    s == 0 || (0 < s <= |text| && text[s - 1] == '\n')
  }

  /** Where the line that begins at `start` ends: its `\n`, or the end of the text. */
  function LineEnd(text: string, start: nat): (e: nat)
    requires start <= |text|
    ensures start <= e <= |text|
    ensures e < |text| ==> text[e] == '\n'
  {
    match IndexOf(text, '\n', start)
    case None => |text|
    case Some(e) => e
  }

  /** The line, stripped, begins with `#`. */
  predicate IsCommentLine(text: string, start: nat, end: nat)
    requires start <= end <= |text|
  {
    var t := Strip(text[start..end]);
    t != [] && t[0] == '#'
  }

  /** The string span of a line: from the first `"` at or after its start to
      just past the next `"`, when both lie before the line's end. */
  function QuoteSpans(text: string, start: nat, end: nat): set<Span>
    requires start <= end <= |text|
  {
    match IndexOf(text, '"', start)
    case None => {}
    case Some(q) =>
      if q >= end then {}
      else
        match IndexOf(text, '"', q + 1)
        case None => {}
        case Some(q2) => if q2 >= end then {} else {Span(q, q2 + 1, Str)}
  }

  /** Neither neighbour of the `n` characters at `p`, where it lies inside
      the text, is a word character. */
  predicate Bounded(text: string, p: nat, n: nat)
    requires p + n <= |text|
  {
    && (p == 0 || !IsWordChar(text[p - 1]))
    && (p + n == |text| || !IsWordChar(text[p + n]))
  }

  /** `kw` occurs at `p` as a whole word. */
  predicate WholeWord(text: string, kw: string, p: nat) {
    OccursAt(text, kw, p) && Bounded(text, p, |kw|)
  }

  /** The strstr loop for one keyword from `pos`: each occurrence found is
      tagged when it is a whole word, and the search resumes past it. */
  function KeywordScan(text: string, kw: string, cat: Category, pos: nat): set<Span>
    requires kw != [] && pos <= |text|
    decreases |text| - pos
  {
    match Find(text, kw, pos)
    case None => {}
    case Some(p) =>
      (if WholeWord(text, kw, p) then {Span(p, p + |kw|, cat)} else {})
      + KeywordScan(text, kw, cat, p + |kw|)
  }

  /** The scans for every word of the table in turn, all from `pos`. */
  function TableSpans(text: string, pos: nat, table: seq<string>): set<Span>
    requires pos <= |text| && IsWordTable(table)
  {
    if table == [] then {}
    else
      var kw := table[|table| - 1];
      TableSpans(text, pos, table[..|table| - 1]) + KeywordScan(text, kw, KeywordCategory(kw), pos)
  }

  /** The spans one line contributes. */
  function LineSpans(text: string, start: nat): set<Span>
    requires start <= |text|
  {
    var end := LineEnd(text, start);
    if IsCommentLine(text, start, end) then {Span(start, end, Comment)}
    else
      KeywordsAreWords();
      QuoteSpans(text, start, end) + TableSpans(text, start, Keywords)
  }

  /** What `f` yields for each line start from `start` on: the walk of the
      line loop, which moves past each line's `\n` and stops at the end. */
  function EachLine(text: string, start: nat, f: nat -> set<Span>): set<Span>
    requires start <= |text|
    decreases |text| - start
  {
    if start == |text| then {}
    else
      var end := LineEnd(text, start);
      f(start) + (if end < |text| then EachLine(text, end + 1, f) else {})
  }

  /** The spans of the line that begins at each position of the text. */
  function LinesOf(text: string): nat -> set<Span> {
    (s: nat) => if s <= |text| then LineSpans(text, s) else {}
  }

  /** The spans of the lines from the one that begins at `start` on. */
  function ScanFrom(text: string, start: nat): set<Span>
    requires start <= |text|
  {
    EachLine(text, start, LinesOf(text))
  }

  /** The spans a highlighting run applies to `text`. */
  function Highlight(text: string): set<Span> {
    ScanFrom(text, 0)
  }

  /*
   * apply_syntax_highlighting as the source runs it.
   */

  /** The editor's text buffer with the tags laid over it. */
  class TextBuffer {
    var text: string
    var tags: set<Span>

    constructor (contents: string)
      ensures text == contents && tags == {}
    {
      text := contents;
      tags := {};
    }

    /** apply_syntax_highlighting: an empty buffer is left alone; otherwise
        every tag is removed, then each line is tagged in turn. */
    method ApplySyntaxHighlighting()
      modifies this
      ensures text == old(text)
      ensures old(text) == [] ==> tags == old(tags)
      ensures old(text) != [] ==> tags == Highlight(text)
    {
      var t := text;
      if t == [] {
        return;
      }
      tags := {};
      var lineStart: nat := 0;
      var lineEnd := IndexOf(t, '\n', lineStart);
      while lineEnd.Some? || lineStart < |t|
        invariant text == t
        invariant lineStart <= |t| && IsLineStart(t, lineStart)
        invariant lineEnd == IndexOf(t, '\n', lineStart)
        invariant tags + ScanFrom(t, lineStart) == Highlight(t)
        decreases |t| - lineStart
      {
        var found := HighlightLine(t, lineStart);
        ScanFromStep(t, lineStart, lineEnd, tags, found, Highlight(t));
        tags := tags + found;
        if lineEnd.Some? {
          lineStart := lineEnd.value + 1;
          lineEnd := IndexOf(t, '\n', lineStart);
        } else {
          break;
        }
      }
      if lineStart == |t| {
        ScanFromDone(t, tags, Highlight(t));
      }
    }
  }

  /** One round of the line loop: the line's spans join those applied, and
      the run goes on from the next line, if there is one. */
  lemma ScanFromStep(text: string, lineStart: nat, lineEnd: Option<nat>, acc: set<Span>, found: set<Span>, all: set<Span>)
    requires lineStart < |text| && IsLineStart(text, lineStart)
    requires lineEnd == IndexOf(text, '\n', lineStart)
    requires found == LineSpans(text, lineStart)
    requires acc + ScanFrom(text, lineStart) == all
    ensures lineEnd.Some? ==>
      lineEnd.value < |text| && IsLineStart(text, lineEnd.value + 1)
      && (acc + found) + ScanFrom(text, lineEnd.value + 1) == all
    ensures lineEnd.None? ==> acc + found == all
  {
    assert LinesOf(text)(lineStart) == found;
    EachLineStep(text, lineStart, lineEnd, LinesOf(text), acc, all);
  }

  /** One round of the line walk, whatever each line contributes. */
  lemma EachLineStep(text: string, lineStart: nat, lineEnd: Option<nat>, f: nat -> set<Span>, acc: set<Span>, all: set<Span>)
    requires lineStart < |text| && IsLineStart(text, lineStart)
    requires lineEnd == IndexOf(text, '\n', lineStart)
    requires acc + EachLine(text, lineStart, f) == all
    ensures lineEnd.Some? ==>
      lineEnd.value < |text| && IsLineStart(text, lineEnd.value + 1)
      && (acc + f(lineStart)) + EachLine(text, lineEnd.value + 1, f) == all
    ensures lineEnd.None? ==> acc + f(lineStart) == all
  {
    var end := LineEnd(text, lineStart);
    var rest := if end < |text| then EachLine(text, end + 1, f) else {};
    assert EachLine(text, lineStart, f) == f(lineStart) + rest;
    assert (acc + f(lineStart)) + rest == all;
  }

  /** The line loop ends at the end of the text with everything applied. */
  lemma ScanFromDone(text: string, acc: set<Span>, all: set<Span>)
    requires acc + ScanFrom(text, |text|) == all
    ensures acc == all
  {
    assert acc + {} == acc;
  }

  /** The body of the line loop: the spans of the line that begins at
      `lineStart`, in the order the highlighter applies them. */
  method HighlightLine(text: string, lineStart: nat) returns (found: set<Span>)
    requires lineStart < |text|
    ensures found == LineSpans(text, lineStart)
  {
    var lineEnd := IndexOf(text, '\n', lineStart);
    var end := if lineEnd.Some? then lineEnd.value else |text|;
    var trimmed := Strip(text[lineStart..end]);
    found := {};
    if trimmed != [] && trimmed[0] == '#' {
      found := found + {Span(lineStart, end, Comment)};
    } else {
      var quoted := HighlightString(text, lineStart, end);
      var words := HighlightKeywords(text, lineStart);
      found := found + quoted + words;
    }
  }

  /** The string test of one non-comment line: a `"` on the line and a
      second one after it, also on the line. */
  method HighlightString(text: string, lineStart: nat, end: nat) returns (found: set<Span>)
    requires lineStart <= end <= |text|
    ensures found == QuoteSpans(text, lineStart, end)
  {
    found := {};
    var quoteStart := IndexOf(text, '"', lineStart);
    if quoteStart.Some? && quoteStart.value < end {
      var quoteEnd := IndexOf(text, '"', quoteStart.value + 1);
      if quoteEnd.Some? && quoteEnd.value < end {
        found := {Span(quoteStart.value, quoteEnd.value + 1, Str)};
      }
    }
  }

  /** The keyword loop of one non-comment line: every table entry is
      searched for from the line's start. */
  method HighlightKeywords(text: string, lineStart: nat) returns (found: set<Span>)
    requires lineStart <= |text|
    ensures IsWordTable(Keywords) && found == TableSpans(text, lineStart, Keywords)
  {
    KeywordsAreWords();
    found := {};
    for i := 0 to |Keywords|
      invariant found == TableSpans(text, lineStart, Keywords[..i])
    {
      var words := HighlightKeyword(text, Keywords[i], KeywordCategory(Keywords[i]), lineStart);
      found := found + words;
      assert Keywords[..i + 1][..i] == Keywords[..i];
    }
    assert Keywords[..|Keywords|] == Keywords;
  }

  /** The strstr loop for one keyword: tag each whole-word occurrence and
      resume the search just past every occurrence found. */
  method HighlightKeyword(text: string, kw: string, category: Category, lineStart: nat) returns (found: set<Span>)
    requires kw != [] && lineStart <= |text|
    ensures found == KeywordScan(text, kw, category, lineStart)
  {
    found := {};
    var pos := lineStart;
    var hit := Find(text, kw, pos);
    ghost var all := ScanAcc(text, kw, category, lineStart, {});
    while hit.Some?
      invariant lineStart <= pos <= |text|
      invariant hit == Find(text, kw, pos)
      invariant ScanAcc(text, kw, category, pos, found) == all
      decreases |text| - pos
    {
      var p := hit.value;
      var isWord := IsWholeWord(text, p, |kw|);
      ghost var last, before := pos, found;
      found := if isWord then found + {Span(p, p + |kw|, category)} else found;
      pos := p + |kw|;
      ScanAccStep(text, kw, category, last, before, p, isWord, pos, found, all);
      hit := Find(text, kw, pos);
    }
    ScanAccDone(text, kw, category, pos, found);
    ScanAccFromEmpty(text, kw, category, lineStart);
  }

  /** The strstr loop stops when the search finds nothing more. */
  lemma ScanAccDone(text: string, kw: string, cat: Category, pos: nat, acc: set<Span>)
    requires kw != [] && pos <= |text| && Find(text, kw, pos).None?
    ensures ScanAcc(text, kw, cat, pos, acc) == acc
  {
  }

  /** The strstr loop, started with nothing applied, applies the scan. */
  lemma ScanAccFromEmpty(text: string, kw: string, cat: Category, pos: nat)
    requires kw != [] && pos <= |text|
    ensures ScanAcc(text, kw, cat, pos, {}) == KeywordScan(text, kw, cat, pos)
  {
    ScanAccIsScan(text, kw, cat, pos, {});
    assert {} + KeywordScan(text, kw, cat, pos) == KeywordScan(text, kw, cat, pos);
  }

  /** The strstr loop for one keyword from `pos`, with the spans in `acc`
      already applied: the loop's own view of its progress. */
  function ScanAcc(text: string, kw: string, cat: Category, pos: nat, acc: set<Span>): set<Span>
    requires kw != [] && pos <= |text|
    decreases |text| - pos
  {
    match Find(text, kw, pos)
    case None => acc
    case Some(p) =>
      ScanAcc(text, kw, cat, p + |kw|, if WholeWord(text, kw, p) then acc + {Span(p, p + |kw|, cat)} else acc)
  }

  /** The two neighbour tests of the strstr loop. */
  method IsWholeWord(text: string, p: nat, n: nat) returns (isWord: bool)
    requires p + n <= |text|
    ensures isWord == Bounded(text, p, n)
  {
    isWord := true;
    if p > 0 && (IsAlnum(text[p - 1]) || text[p - 1] == '_') {
      isWord := false;
    }
    if p + n < |text| && (IsAlnum(text[p + n]) || text[p + n] == '_') {
      isWord := false;
    }
  }

  /** One round of the strstr loop. */
  lemma ScanAccStep(text: string, kw: string, cat: Category, pos: nat, acc: set<Span>, p: nat, isWord: bool,
                    next: nat, acc': set<Span>, all: set<Span>)
    requires kw != [] && pos <= |text| && Find(text, kw, pos) == Some(p)
    requires isWord == Bounded(text, p, |kw|)
    requires next == p + |kw| && acc' == if isWord then acc + {Span(p, p + |kw|, cat)} else acc
    requires ScanAcc(text, kw, cat, pos, acc) == all
    ensures pos < next <= |text| && ScanAcc(text, kw, cat, next, acc') == all
  {
  }

  /** The loop's view agrees with the scan: what it applies is what was
      applied before, plus the scan from `pos`. */
  lemma {:induction false} ScanAccIsScan(text: string, kw: string, cat: Category, pos: nat, acc: set<Span>)
    requires kw != [] && pos <= |text|
    ensures ScanAcc(text, kw, cat, pos, acc) == acc + KeywordScan(text, kw, cat, pos)
    decreases |text| - pos
  {
    match Find(text, kw, pos)
    case None =>
    case Some(p) =>
      var acc' := if WholeWord(text, kw, p) then acc + {Span(p, p + |kw|, cat)} else acc;
      ScanAccIsScan(text, kw, cat, p + |kw|, acc');
  }


  /*
   * What the highlighter promises.
   */

  /** No `\n` lies between a line's start and its end. */
  lemma LineEndFirst(text: string, start: nat)
    requires start <= |text|
    ensures forall i :: start <= i < LineEnd(text, start) ==> text[i] != '\n'
  {
    IndexOfFirst(text, '\n', start);
  }

  /** A position lies on one line only. */
  lemma OneLine(text: string, s1: nat, s2: nat, p: nat)
    requires s1 <= |text| && IsLineStart(text, s1) && s1 <= p < LineEnd(text, s1)
    requires s2 <= |text| && IsLineStart(text, s2) && s2 <= p < LineEnd(text, s2)
    ensures s1 == s2
  {
    LineEndFirst(text, s1);
    LineEndFirst(text, s2);
    if s1 < s2 {
      assert false;
    } else if s2 < s1 {
      assert false;
    }
  }

  /** The line walk from a line start visits exactly the line starts after it. */
  lemma {:induction false} EachLineVisits(text: string, ls: nat, f: nat -> set<Span>, sp: Span)
    requires ls <= |text| && IsLineStart(text, ls)
    ensures sp in EachLine(text, ls, f) <==>
      exists s: nat :: ls <= s < |text| && IsLineStart(text, s) && sp in f(s)
    decreases |text| - ls
  {
    if ls < |text| {
      var end := LineEnd(text, ls);
      LineEndFirst(text, ls);
      if end < |text| {
        EachLineVisits(text, end + 1, f, sp);
      }
      if exists s: nat :: ls <= s < |text| && IsLineStart(text, s) && sp in f(s) {
        var s: nat :| ls <= s < |text| && IsLineStart(text, s) && sp in f(s);
        if s != ls {
          assert text[s - 1] == '\n';
          assert end <= s - 1;
        }
      }
    }
  }

  /** A run from a line start tags what the lines from there on contribute. */
  lemma ScanFromLines(text: string, ls: nat, sp: Span)
    requires ls <= |text| && IsLineStart(text, ls)
    ensures sp in ScanFrom(text, ls) <==>
      exists s: nat :: ls <= s < |text| && IsLineStart(text, s) && sp in LineSpans(text, s)
  {
    EachLineVisits(text, ls, LinesOf(text), sp);
    assert forall s: nat :: s < |text| ==> LinesOf(text)(s) == LineSpans(text, s);
  }

  /** A line's string span, spelled out: the first quote at or after the
      line's start and the next quote after it, both before the line's end. */
  lemma QuoteSpansShape(text: string, s: nat, e: nat, sp: Span)
    requires s <= e <= |text|
    ensures sp in QuoteSpans(text, s, e) <==>
      && sp.category == Str && s <= sp.start && sp.start + 1 < sp.end <= e
      && text[sp.start] == '"' && text[sp.end - 1] == '"'
      && (forall i :: s <= i < sp.start ==> text[i] != '"')
      && (forall i :: sp.start < i < sp.end - 1 ==> text[i] != '"')
  {
    IndexOfFirst(text, '"', s);
    match IndexOf(text, '"', s)
    case None =>
    case Some(q) =>
      IndexOfFirst(text, '"', q + 1);
      if sp.category == Str && s <= sp.start && sp.start + 1 < sp.end <= e
        && text[sp.start] == '"' && text[sp.end - 1] == '"'
        && (forall i :: s <= i < sp.start ==> text[i] != '"')
        && (forall i :: sp.start < i < sp.end - 1 ==> text[i] != '"')
      {
        IndexOfAt(text, '"', s, sp.start);
        IndexOfAt(text, '"', q + 1, sp.end - 1);
      }
  }

  /** A span of the scan for one word: a whole-word occurrence tagged `cat`. */
  predicate ScanHit(text: string, kw: string, cat: Category, sp: Span) {
    sp.end == sp.start + |kw| && sp.category == cat && WholeWord(text, kw, sp.start)
  }

  /** A keyword span of `kw`: a scan hit tagged by the keyword's own category. */
  predicate KeywordAt(text: string, kw: string, sp: Span) {
    ScanHit(text, kw, KeywordCategory(kw), sp)
  }

  /** Everything a keyword scan tags is a whole-word occurrence at or after its start. */
  lemma {:induction false} KeywordScanSound(text: string, kw: string, cat: Category, pos: nat, sp: Span)
    requires kw != [] && pos <= |text|
    requires sp in KeywordScan(text, kw, cat, pos)
    ensures pos <= sp.start && ScanHit(text, kw, cat, sp)
    decreases |text| - pos
  {
    match Find(text, kw, pos)
    case None =>
    case Some(p) =>
      if !(WholeWord(text, kw, p) && sp == Span(p, p + |kw|, cat)) {
        KeywordScanSound(text, kw, cat, p + |kw|, sp);
      }
  }

  /** The search from `pos` finds an occurrence, and no later than any given one. */
  lemma FindReaches(text: string, kw: string, pos: nat, a: nat) returns (p: nat)
    requires pos <= a && OccursAt(text, kw, a)
    ensures Find(text, kw, pos) == Some(p) && p <= a
  {
    FindFirst(text, kw, pos);
    p := Find(text, kw, pos).value;
  }

  /** An occurrence of a word that starts inside an earlier occurrence of it
      is preceded by a word character. */
  lemma OverlapNotBounded(text: string, kw: string, p: nat, a: nat)
    requires IsLowerWord(kw) && OccursAt(text, kw, p) && p < a < p + |kw| && OccursAt(text, kw, a)
    ensures !Bounded(text, a, |kw|)
  {
    assert text[a - 1] == text[p..p + |kw|][a - 1 - p];
  }

  /** A whole-word occurrence at or after an occurrence `p` is `p` itself
      or starts past its end. */
  lemma WholeWordNotInside(text: string, kw: string, p: nat, a: nat)
    requires IsLowerWord(kw) && OccursAt(text, kw, p) && p <= a && WholeWord(text, kw, a)
    ensures a == p || p + |kw| <= a
  {
    if p < a < p + |kw| {
      OverlapNotBounded(text, kw, p, a);
    }
  }

  /** No occurrence of `kw` from `pos` on starts before `a` and runs past it. */
  predicate EndsBefore(text: string, kw: string, pos: nat, a: nat) {
    forall q :: pos <= q < a && OccursAt(text, kw, q) ==> q + |kw| <= a
  }

  /** Past an occurrence that ends before `a`, the later ones still do. */
  lemma EndsBeforeLater(text: string, kw: string, pos: nat, p: nat, a: nat)
    requires EndsBefore(text, kw, pos, a) && pos <= p < a && OccursAt(text, kw, p)
    ensures p + |kw| <= a && EndsBefore(text, kw, p + |kw|, a)
  {
  }

  /** A keyword scan misses no whole-word occurrence at or after its start:
      the occurrences that the search skips overlap the one it found, and
      so are preceded by a word character. */
  lemma KeywordScanComplete(text: string, kw: string, cat: Category, pos: nat, a: nat)
    requires IsLowerWord(kw) && pos <= a && pos <= |text|
    requires WholeWord(text, kw, a)
    ensures Span(a, a + |kw|, cat) in KeywordScan(text, kw, cat, pos)
  {
    forall q | pos <= q < a && OccursAt(text, kw, q)
      ensures q + |kw| <= a
    {
      WholeWordNotInside(text, kw, q, a);
    }
    KeywordScanReaches(text, kw, cat, pos, a);
  }

  /** The scan reaches a whole-word occurrence that no earlier occurrence
      runs into. */
  lemma {:induction false} KeywordScanReaches(text: string, kw: string, cat: Category, pos: nat, a: nat)
    requires kw != [] && pos <= a && pos <= |text|
    requires WholeWord(text, kw, a) && EndsBefore(text, kw, pos, a)
    ensures Span(a, a + |kw|, cat) in KeywordScan(text, kw, cat, pos)
    decreases |text| - pos, 1
  {
    var p := FindReaches(text, kw, pos, a);
    if a == p {
      KeywordScanHit(text, kw, cat, pos, p);
    } else {
      KeywordScanPast(text, kw, cat, pos, p, a);
    }
  }

  /** The first occurrence found lies before `a`: the scan goes on past it
      and reaches `a` later. */
  lemma {:induction false} KeywordScanPast(text: string, kw: string, cat: Category, pos: nat, p: nat, a: nat)
    requires kw != [] && pos <= |text| && Find(text, kw, pos) == Some(p) && p < a
    requires WholeWord(text, kw, a) && EndsBefore(text, kw, pos, a)
    ensures Span(a, a + |kw|, cat) in KeywordScan(text, kw, cat, pos)
    decreases |text| - pos, 0
  {
    EndsBeforeLater(text, kw, pos, p, a);
    KeywordScanReaches(text, kw, cat, p + |kw|, a);
    KeywordScanKeeps(text, kw, cat, pos, p, Span(a, a + |kw|, cat));
  }


  /** The occurrence the search finds is tagged when it is a whole word. */
  lemma KeywordScanHit(text: string, kw: string, cat: Category, pos: nat, p: nat)
    requires kw != [] && pos <= |text| && Find(text, kw, pos) == Some(p)
    requires WholeWord(text, kw, p)
    ensures Span(p, p + |kw|, cat) in KeywordScan(text, kw, cat, pos)
  {
  }

  /** What the scan tags past the occurrence found, it tags from `pos` too. */
  lemma KeywordScanKeeps(text: string, kw: string, cat: Category, pos: nat, p: nat, sp: Span)
    requires kw != [] && pos <= |text| && Find(text, kw, pos) == Some(p)
    requires p + |kw| <= |text| && sp in KeywordScan(text, kw, cat, p + |kw|)
    ensures sp in KeywordScan(text, kw, cat, pos)
  {
  }

  /** The table's scans from `pos` tag exactly the whole-word occurrences of
      its words at or after `pos`. */
  lemma {:induction false} TableSpansExact(text: string, pos: nat, table: seq<string>, sp: Span)
    requires pos <= |text| && IsWordTable(table)
    ensures sp in TableSpans(text, pos, table) <==>
      pos <= sp.start && exists i :: 0 <= i < |table| && KeywordAt(text, table[i], sp)
    decreases |table|
  {
    if table != [] {
      var init := table[..|table| - 1];
      var kw := table[|table| - 1];
      var cat := KeywordCategory(kw);
      TableSpansExact(text, pos, init, sp);
      if sp in KeywordScan(text, kw, cat, pos) {
        KeywordScanSound(text, kw, cat, pos, sp);
        assert KeywordAt(text, table[|table| - 1], sp);
      }
      if pos <= sp.start && exists i :: 0 <= i < |table| && KeywordAt(text, table[i], sp) {
        var i :| 0 <= i < |table| && KeywordAt(text, table[i], sp);
        if i == |table| - 1 {
          KeywordScanComplete(text, kw, cat, pos, sp.start);
          assert sp == Span(sp.start, sp.start + |kw|, cat);
        } else {
          assert table[i] == init[i];
        }
      }
    }
  }

  /** Every span a line contributes lies inside the text, after the line's start. */
  lemma LineSpansBounds(text: string, s: nat, sp: Span)
    requires s < |text| && sp in LineSpans(text, s)
    ensures s <= sp.start < sp.end <= |text|
  {
    var e := LineEnd(text, s);
    if !IsCommentLine(text, s, e) {
      QuoteSpansShape(text, s, e, sp);
      KeywordsAreWords();
      TableSpansExact(text, s, Keywords, sp);
      KeywordsAreWords();
    }
  }

  /** Every span lies inside the text and covers at least one character. */
  lemma HighlightBounds(text: string, sp: Span)
    requires sp in Highlight(text)
    ensures 0 <= sp.start < sp.end <= |text|
  {
    ScanFromLines(text, 0, sp);
    var s :| 0 <= s < |text| && IsLineStart(text, s) && sp in LineSpans(text, s);
    LineSpansBounds(text, s, sp);
  }

  /** The text without characters has no spans. */
  lemma EmptyTextNoSpans()
    ensures Highlight([]) == {}
  {
  }

  /** A text of blanks only has no spans: no line of it is a comment, and it
      holds neither a quote nor the first letter of any keyword. */
  lemma WhitespaceNoSpans(text: string)
    requires forall i :: 0 <= i < |text| ==> IsSpace(text[i])
    ensures Highlight(text) == {}
  {
    forall sp
      ensures sp !in Highlight(text)
    {
      ScanFromLines(text, 0, sp);
      forall s: nat | s < |text|
        ensures sp !in LineSpans(text, s)
      {
        BlankLineSpans(text, s, sp);
      }
    }
  }

  /** No line of a text of blanks contributes a span. */
  lemma BlankLineSpans(text: string, s: nat, sp: Span)
    requires forall i :: 0 <= i < |text| ==> IsSpace(text[i])
    requires s < |text|
    ensures sp !in LineSpans(text, s)
  {
    var e := LineEnd(text, s);
    ChugPadded(text[s..e], []);
    assert text[s..e] + [] == text[s..e];
    QuoteSpansShape(text, s, e, sp);
    BlankNoKeyword(text, sp);
    KeywordsAreWords();
    TableSpansExact(text, s, Keywords, sp);
  }

  /** A text of blanks holds no keyword. */
  lemma BlankNoKeyword(text: string, sp: Span)
    requires forall i :: 0 <= i < |text| ==> IsSpace(text[i])
    ensures forall i :: 0 <= i < |Keywords| ==> !KeywordAt(text, Keywords[i], sp)
  {
    KeywordsAreWords();
    forall i | 0 <= i < |Keywords|
      ensures !KeywordAt(text, Keywords[i], sp)
    {
      NotOccursAtHead(text, Keywords[i], sp.start);
    }
  }

  /** Comment spans are exactly the comment lines, each covered from its start
      to its end, the `\n` excluded. */
  lemma CommentSpans(text: string, a: nat, b: nat)
    ensures Span(a, b, Comment) in Highlight(text) <==>
      a < |text| && IsLineStart(text, a) && b == LineEnd(text, a) && IsCommentLine(text, a, b)
  {
    var sp := Span(a, b, Comment);
    ScanFromLines(text, 0, sp);
    if sp in Highlight(text) {
      var s :| 0 <= s < |text| && IsLineStart(text, s) && sp in LineSpans(text, s);
      var e := LineEnd(text, s);
      if !IsCommentLine(text, s, e) {
        QuoteSpansShape(text, s, e, sp);
        KeywordsAreWords();
        TableSpansExact(text, s, Keywords, sp);
        assert false;
      }
    }
  }

  /** String spans are exactly the string spans of the non-comment lines. */
  lemma StringSpans(text: string, sp: Span)
    requires sp.category == Str
    ensures sp in Highlight(text) <==>
      exists s: nat :: s < |text| && IsLineStart(text, s) && !IsCommentLine(text, s, LineEnd(text, s))
                  && sp in QuoteSpans(text, s, LineEnd(text, s))
  {
    ScanFromLines(text, 0, sp);
    if sp in Highlight(text) {
      var s :| 0 <= s < |text| && IsLineStart(text, s) && sp in LineSpans(text, s);
      KeywordsAreWords();
      TableSpansExact(text, s, Keywords, sp);
    }
  }

  /** A line has at most one string span. */
  lemma OneStringSpanPerLine(text: string, s: nat, sp1: Span, sp2: Span)
    requires s <= |text| && IsLineStart(text, s)
    requires sp1.category == Str && sp1 in Highlight(text) && s <= sp1.start < LineEnd(text, s)
    requires sp2.category == Str && sp2 in Highlight(text) && s <= sp2.start < LineEnd(text, s)
    ensures sp1 == sp2
  {
    StringSpans(text, sp1);
    StringSpans(text, sp2);
    var s1: nat :| s1 < |text| && IsLineStart(text, s1) && !IsCommentLine(text, s1, LineEnd(text, s1))
              && sp1 in QuoteSpans(text, s1, LineEnd(text, s1));
    var s2: nat :| s2 < |text| && IsLineStart(text, s2) && !IsCommentLine(text, s2, LineEnd(text, s2))
              && sp2 in QuoteSpans(text, s2, LineEnd(text, s2));
    QuoteSpansShape(text, s1, LineEnd(text, s1), sp1);
    QuoteSpansShape(text, s2, LineEnd(text, s2), sp2);
    OneLine(text, s, s1, sp1.start);
    OneLine(text, s, s2, sp2.start);
  }

  /** Keyword and directive spans are exactly the whole-word occurrences of a
      table keyword with some non-comment line starting at or before them,
      even when the occurrence itself lies on a later line or in a comment. */
  lemma KeywordSpans(text: string, sp: Span)
    requires sp.category == Keyword || sp.category == Directive
    ensures sp in Highlight(text) <==>
      && (exists i :: 0 <= i < |Keywords| && KeywordAt(text, Keywords[i], sp))
      && (exists s: nat :: s <= sp.start && s < |text| && IsLineStart(text, s) && !IsCommentLine(text, s, LineEnd(text, s)))
  {
    ScanFromLines(text, 0, sp);
    if sp in Highlight(text) {
      var s :| 0 <= s < |text| && IsLineStart(text, s) && sp in LineSpans(text, s);
      QuoteSpansShape(text, s, LineEnd(text, s), sp);
      KeywordsAreWords();
      TableSpansExact(text, s, Keywords, sp);
    }
    if && (exists i :: 0 <= i < |Keywords| && KeywordAt(text, Keywords[i], sp))
       && (exists s: nat :: s <= sp.start && s < |text| && IsLineStart(text, s) && !IsCommentLine(text, s, LineEnd(text, s)))
    {
      var s: nat :| s <= sp.start && s < |text| && IsLineStart(text, s) && !IsCommentLine(text, s, LineEnd(text, s));
      KeywordsAreWords();
      TableSpansExact(text, s, Keywords, sp);
    }
  }

  /** `server` at the head of `server_name` is never tagged. */
  lemma ServerInsideServerName(text: string, p: nat, c: Category)
    requires OccursAt(text, "server_name", p)
    ensures Span(p, p + 6, c) !in Highlight(text) || c == Comment || c == Str
  {
    var sp := Span(p, p + 6, c);
    if sp in Highlight(text) && (c == Keyword || c == Directive) {
      assert text[p + 6] == "server_name"[6] by {
        assert text[p..p + 11][6] == text[p + 6];
      }
      KeywordSpans(text, sp);
      assert false;
    }
  }

  /** Of the 27 table entries, exactly `server`, `location`, `upstream`,
      `http` and `events` are tagged as directives. */
  lemma DirectiveKeywords()
    ensures forall i :: 0 <= i < |Keywords| ==>
      (KeywordCategory(Keywords[i]) == Directive <==> i == 0 || i == 3 || i == 16 || i == 18 || i == 19)
    ensures Keywords[0] == "server" && Keywords[3] == "location" && Keywords[16] == "upstream"
         && Keywords[18] == "events" && Keywords[19] == "http"
  {
  }

  /** A text of one comment line gets exactly one span, the comment over the
      whole line: no keyword in it is tagged. */
  lemma SingleCommentLine(text: string)
    requires text != [] && '\n' !in text && IsCommentLine(text, 0, |text|)
    ensures Highlight(text) == {Span(0, |text|, Comment)}
  {
    IndexOfNone(text, '\n', 0);
    assert LineEnd(text, 0) == |text|;
    assert LinesOf(text)(0) == {Span(0, |text|, Comment)};
  }

  /** An indented line that begins with `#` is a comment line, whatever follows. */
  lemma IndentedCommentLine(pad: string, body: string)
    requires forall i :: 0 <= i < |pad| ==> IsSpace(pad[i]) && pad[i] != '\n'
    requires body != [] && body[0] == '#' && '\n' !in body
    ensures Highlight(pad + body) == {Span(0, |pad + body|, Comment)}
  {
    var text := pad + body;
    ChugPadded(pad, body);
    assert body == [body[0]] + body[1..];
    ChompAppend([body[0]], body[1..]);
    assert Strip(text)[0] == '#';
    assert text[0..|text|] == text;
    assert '\n' !in text by {
      forall i | 0 <= i < |text| ensures text[i] != '\n' {
        if i >= |pad| {
          assert text[i] == body[i - |pad|];
        }
      }
    }
    SingleCommentLine(text);
  }

  /** `    # comment with server_name` is tagged as a comment and nothing else. */
  lemma IndentedComment(text: string)
    requires text == "    # comment with server_name"
    ensures Highlight(text) == {Span(0, |text|, Comment)}
  {
    assert text == "    " + "# comment with server_name";
    IndentedCommentLine("    ", "# comment with server_name");
  }
}
