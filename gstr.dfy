/**
 * The GLib and C library string primitives the editor is built on, over ASCII
 * text (one character per byte): g_ascii_isspace, g_strstrip, g_strsplit,
 * strchr, strstr and g_str_has_prefix / g_str_has_suffix.
 */
module GStr {

  datatype Option<T> = None | Some(value: T)

  /** g_ascii_isspace: space, tab, newline, vertical tab, form feed, carriage return. */
  predicate IsSpace(c: char) {
    c == ' ' || c == '\t' || c == '\n' || c == '\U{0B}' || c == '\U{0C}' || c == '\r'
  }

  /** g_ascii_isalnum */
  predicate IsAlnum(c: char) {
    ('a' <= c <= 'z') || ('A' <= c <= 'Z') || ('0' <= c <= '9')
  }

  /** A character that may continue an identifier: an ASCII alphanumeric or `_`. */
  predicate IsWordChar(c: char) {
    IsAlnum(c) || c == '_'
  }

  predicate HasPrefix(s: string, prefix: string) {
    |prefix| <= |s| && s[..|prefix|] == prefix
  }

  predicate HasSuffix(s: string, suffix: string) {
    |suffix| <= |s| && s[|s| - |suffix|..] == suffix
  }

  /** `t` occurs in `s` starting at offset `i`. */
  predicate OccursAt(s: string, t: string, i: nat) {
    i + |t| <= |s| && s[i..i + |t|] == t
  }

  /** `t` cannot occur where the character differs from its first one. */
  lemma NotOccursAtHead(s: string, t: string, i: nat)
    requires t != [] && (i < |s| ==> s[i] != t[0])
    ensures !OccursAt(s, t, i)
  {
    if i + |t| <= |s| {
      assert s[i..i + |t|][0] == s[i];
    }
  }

  /** `t` is a contiguous piece of `s` (what strstr(s, t) != NULL decides). */
  predicate IsInfix(t: string, s: string) {
    exists i: nat :: i <= |s| && OccursAt(s, t, i)
  }

  /** strchr(s + from, c): the first offset at or after `from` holding `c`. */
  function IndexOf(s: string, c: char, from: nat): (r: Option<nat>)
    ensures r.Some? ==> from <= r.value < |s| && s[r.value] == c
    decreases |s| - from
  {
    if from >= |s| then None
    else if s[from] == c then Some(from)
    else IndexOf(s, c, from + 1)
  }

  /** strchr answers with the first occurrence, and with none only when there is none. */
  lemma {:induction false} IndexOfFirst(s: string, c: char, from: nat)
    ensures IndexOf(s, c, from).Some? ==> forall i :: from <= i < IndexOf(s, c, from).value ==> s[i] != c
    ensures IndexOf(s, c, from).None? ==> forall i :: from <= i < |s| ==> s[i] != c
    decreases |s| - from
  {
    if from < |s| && s[from] != c {
      IndexOfFirst(s, c, from + 1);
    }
  }

  lemma {:induction false} IndexOfAt(s: string, c: char, from: nat, k: nat)
    requires from <= k < |s| && s[k] == c
    requires forall i :: from <= i < k ==> s[i] != c
    ensures IndexOf(s, c, from) == Some(k)
    decreases k - from
  {
    if from < k {
      IndexOfAt(s, c, from + 1, k);
    }
  }

  lemma {:induction false} IndexOfNone(s: string, c: char, from: nat)
    requires forall i :: from <= i < |s| ==> s[i] != c
    ensures IndexOf(s, c, from) == None
    decreases |s| - from
  {
    if from < |s| {
      IndexOfNone(s, c, from + 1);
    }
  }

  /** strchr from offset `d + i` of `s` is strchr from offset `i` of the suffix `s[d..]`, moved by `d`. */
  lemma {:induction false} IndexOfDrop(s: string, c: char, d: nat, i: nat)
    requires d <= |s|
    ensures IndexOf(s, c, d + i) == match IndexOf(s[d..], c, i) { case None => None case Some(k) => Some(d + k) }
    decreases |s| - d - i
  {
    if d + i < |s| && s[d + i] != c {
      assert s[d..][i] == s[d + i];
      IndexOfDrop(s, c, d, i + 1);
    }
  }

  /** strstr(s + from, t): the leftmost occurrence of `t` at or after `from`. */
  function Find(s: string, t: string, from: nat): (r: Option<nat>)
    ensures r.Some? ==> from <= r.value && OccursAt(s, t, r.value)
    decreases |s| - from
  {
    if from + |t| > |s| then None
    else if s[from..from + |t|] == t then Some(from)
    else Find(s, t, from + 1)
  }

  /** strstr answers with the leftmost occurrence, and with none only when there is none. */
  lemma {:induction false} FindFirst(s: string, t: string, from: nat)
    ensures Find(s, t, from).Some? ==> forall i :: from <= i < Find(s, t, from).value ==> !OccursAt(s, t, i)
    ensures Find(s, t, from).None? ==> forall i :: from <= i ==> !OccursAt(s, t, i)
    decreases |s| - from
  {
    if from + |t| <= |s| && s[from..from + |t|] != t {
      FindFirst(s, t, from + 1);
    }
  }

  /** strstr(s, t) finds something exactly when `t` is a piece of `s`. */
  lemma FindIsInfix(s: string, t: string)
    ensures Find(s, t, 0).Some? <==> IsInfix(t, s)
  {
    FindFirst(s, t, 0);
    if IsInfix(t, s) {
      var i: nat :| i <= |s| && OccursAt(s, t, i);
    }
  }

  /** g_strchug: drop the leading ASCII whitespace. */
  function Chug(s: string): (r: string)
    ensures |r| <= |s|
    ensures r == [] || !IsSpace(r[0])
  {
    if |s| > 0 && IsSpace(s[0]) then Chug(s[1..]) else s
  }

  /** g_strchomp: drop the trailing ASCII whitespace. */
  function Chomp(s: string): (r: string)
    ensures |r| <= |s|
    ensures r == [] || !IsSpace(r[|r| - 1])
  {
    if |s| > 0 && IsSpace(s[|s| - 1]) then Chomp(s[..|s| - 1]) else s
  }

  /** g_strstrip: both ends. */
  function Strip(s: string): string {
    Chomp(Chug(s))
  }

  lemma {:induction false} ChugIsSuffix(s: string)
    ensures Chug(s) == s[|s| - |Chug(s)|..]
  {
    if |s| > 0 && IsSpace(s[0]) {
      ChugIsSuffix(s[1..]);
    }
  }

  lemma {:induction false} ChompIsPrefix(s: string)
    ensures Chomp(s) == s[..|Chomp(s)|]
  {
    if |s| > 0 && IsSpace(s[|s| - 1]) {
      ChompIsPrefix(s[..|s| - 1]);
    }
  }

  /** Stripping keeps a contiguous part of the text. */
  lemma StripIsInfix(s: string)
    ensures IsInfix(Strip(s), s)
  {
    var c := Chug(s);
    var r := Chomp(c);
    ChugIsSuffix(s);
    ChompIsPrefix(c);
    var i := |s| - |c|;
    assert s[i..][..|r|] == r;
    assert s[i..i + |r|] == r;
    assert OccursAt(s, r, i);
  }

  /** Stripping leaves no whitespace at either end. */
  lemma StripEdges(s: string)
    ensures Strip(s) == [] || (!IsSpace(Strip(s)[0]) && !IsSpace(Strip(s)[|Strip(s)| - 1]))
  {
    var c := Chug(s);
    var r := Chomp(c);
    ChompIsPrefix(c);
    if r != [] {
      assert r[0] == c[0];
    }
  }

  lemma {:induction false} ChugPadded(pad: string, x: string)
    requires forall i :: 0 <= i < |pad| ==> IsSpace(pad[i])
    requires x == [] || !IsSpace(x[0])
    ensures Chug(pad + x) == x
    decreases |pad|
  {
    if pad != [] {
      assert (pad + x)[1..] == pad[1..] + x;
      ChugPadded(pad[1..], x);
    } else {
      assert pad + x == x;
    }
  }

  /** Trailing whitespace after a non-blank is removed and nothing before it. */
  lemma {:induction false} ChompAppend(a: string, y: string)
    requires a != [] && !IsSpace(a[|a| - 1])
    ensures Chomp(a + y) == a + Chomp(y)
    decreases |y|
  {
    if y == [] {
      assert a + y == a;
    } else if IsSpace(y[|y| - 1]) {
      assert (a + y)[..|a + y| - 1] == a + y[..|y| - 1];
      ChompAppend(a, y[..|y| - 1]);
    }
  }

  /** Stripping removes indentation and nothing else from a text with non-blank ends. */
  lemma StripPadded(pad: string, x: string)
    requires forall i :: 0 <= i < |pad| ==> IsSpace(pad[i])
    requires x != [] && !IsSpace(x[0]) && !IsSpace(x[|x| - 1])
    ensures Strip(pad + x) == x
  {
    ChugPadded(pad, x);
  }

  /** The pieces of `s` between occurrences of `c`; always at least one. */
  function Pieces(s: string, c: char): (r: seq<string>)
    ensures |r| >= 1
    decreases |s|
  {
    match IndexOf(s, c, 0)
    case None => [s]
    case Some(i) => [s[..i]] + Pieces(s[i + 1..], c)
  }

  /** g_strsplit(s, c, -1): no pieces at all for the empty string. */
  function Split(s: string, c: char): seq<string> {
    if s == "" then [] else Pieces(s, c)
  }

  /** Putting the separator back between the pieces. */
  function Join(pieces: seq<string>, c: char): string
    requires |pieces| >= 1
  {
    if |pieces| == 1 then pieces[0] else pieces[0] + [c] + Join(pieces[1..], c)
  }

  /** Joining pieces that hold no separator and splitting again gives the pieces back. */
  lemma {:induction false} PiecesJoin(ps: seq<string>, c: char)
    requires |ps| >= 1
    requires forall k :: 0 <= k < |ps| ==> c !in ps[k]
    ensures Pieces(Join(ps, c), c) == ps
    decreases |ps|
  {
    IndexOfNone(ps[0], c, 0);
    assert Pieces(ps[0], c) == [ps[0]];
    if |ps| > 1 {
      var rest := ps[1..];
      assert Join(ps, c) == ps[0] + [c] + Join(rest, c);
      PiecesAppend(ps[0], c, Join(rest, c));
      assert forall k :: 0 <= k < |rest| ==> rest[k] == ps[k + 1];
      PiecesJoin(rest, c);
      assert ps == [ps[0]] + rest;
    }
  }

  /** A joined text starts with the first piece and ends with the last. */
  lemma {:induction false} JoinEnds(ps: seq<string>, c: char)
    requires |ps| >= 1 && forall k :: 0 <= k < |ps| ==> ps[k] != []
    ensures Join(ps, c) != [] && Join(ps, c)[0] == ps[0][0]
    ensures Join(ps, c)[|Join(ps, c)| - 1] == ps[|ps| - 1][|ps[|ps| - 1]| - 1]
    decreases |ps|
  {
    if |ps| > 1 {
      JoinEnds(ps[1..], c);
    }
  }

  /** A joined text holds only the separator and characters of the pieces. */
  lemma {:induction false} JoinExcludes(ps: seq<string>, c: char, x: char)
    requires |ps| >= 1 && x != c
    requires forall k :: 0 <= k < |ps| ==> x !in ps[k]
    ensures x !in Join(ps, c)
    decreases |ps|
  {
    if |ps| > 1 {
      JoinExcludes(ps[1..], c, x);
    }
  }

  /** Splitting at one separator splits the two sides independently. */
  lemma {:induction false} PiecesAppend(a: string, c: char, b: string)
    ensures Pieces(a + [c] + b, c) == Pieces(a, c) + Pieces(b, c)
    decreases |a|
  {
    match IndexOf(a, c, 0)
    case None =>
      PiecesCutFirst(a, c, b);
    case Some(i) =>
      var rest := a[i + 1..];
      PiecesCutInside(a, c, b, i);
      PiecesAppend(rest, c, b);
  }

  /** When `a` holds no separator, the first cut of `a + [c] + b` is right after `a`. */
  lemma PiecesCutFirst(a: string, c: char, b: string)
    requires IndexOf(a, c, 0).None?
    ensures Pieces(a + [c] + b, c) == [a] + Pieces(b, c)
    ensures Pieces(a, c) == [a]
  {
    var s := a + [c] + b;
    IndexOfPrefix(s, a, c, 0);
    assert s[..|a|] == a && s[|a| + 1..] == b;
  }

  /** When `a` holds the separator at `i`, the first cut of `a + [c] + b` is there too. */
  lemma PiecesCutInside(a: string, c: char, b: string, i: nat)
    requires IndexOf(a, c, 0) == Some(i)
    ensures i < |a|
    ensures Pieces(a + [c] + b, c) == [a[..i]] + Pieces(a[i + 1..] + [c] + b, c)
    ensures Pieces(a, c) == [a[..i]] + Pieces(a[i + 1..], c)
  {
    var s := a + [c] + b;
    IndexOfPrefix(s, a, c, 0);
    assert s[..i] == a[..i];
    assert s[i + 1..] == a[i + 1..] + [c] + b;
  }

  /** strchr over a text that begins with `a` answers within `a` when `a` holds `c`. */
  lemma {:induction false} IndexOfPrefix(s: string, a: string, c: char, from: nat)
    requires a <= s && from <= |a|
    ensures IndexOf(a, c, from).Some? ==> IndexOf(s, c, from) == IndexOf(a, c, from)
    ensures IndexOf(a, c, from).None? && |a| < |s| && s[|a|] == c ==> IndexOf(s, c, from) == Some(|a|)
    decreases |a| - from
  {
    if from < |a| && a[from] != c {
      assert s[from] == a[from];
      IndexOfPrefix(s, a, c, from + 1);
    }
  }

  /** No piece holds the separator. */
  lemma {:induction false} PiecesExclude(s: string, c: char, k: nat)
    requires k < |Pieces(s, c)|
    ensures c !in Pieces(s, c)[k]
    decreases |s|
  {
    match IndexOf(s, c, 0)
    case None =>
      IndexOfFirst(s, c, 0);
    case Some(i) =>
      if k == 0 {
        IndexOfFirst(s, c, 0);
      } else {
        PiecesExclude(s[i + 1..], c, k - 1);
      }
  }

  /** Every piece of a split is a contiguous part of the text. */
  lemma {:induction false} PiecesAreInfixes(s: string, c: char, k: nat)
    requires k < |Pieces(s, c)|
    ensures IsInfix(Pieces(s, c)[k], s)
    decreases |s|
  {
    match IndexOf(s, c, 0)
    case None =>
      assert s[0..|s|] == s;
      assert OccursAt(s, s, 0);
    case Some(i) =>
      if k == 0 {
        assert s[0..|s[..i]|] == s[..i];
        assert OccursAt(s, s[..i], 0);
      } else {
        var rest := s[i + 1..];
        PiecesAreInfixes(rest, c, k - 1);
        var j: nat :| j <= |rest| && OccursAt(rest, Pieces(rest, c)[k - 1], j);
        InfixShift(s, i + 1, Pieces(rest, c)[k - 1], j);
      }
  }

  /** An occurrence in a suffix of `s` is an occurrence in `s`. */
  lemma InfixShift(s: string, d: nat, t: string, j: nat)
    requires d <= |s| && OccursAt(s[d..], t, j)
    ensures OccursAt(s, t, d + j) && IsInfix(t, s)
  {
    assert s[d + j..d + j + |t|] == s[d..][j..j + |t|];
    var k: nat := d + j;
    assert k <= |s| && OccursAt(s, t, k);
  }

  /** A piece of a piece is a piece. */
  lemma InfixTrans(t: string, u: string, s: string)
    requires IsInfix(t, u) && IsInfix(u, s)
    ensures IsInfix(t, s)
  {
    var i: nat :| i <= |u| && OccursAt(u, t, i);
    var j: nat :| j <= |s| && OccursAt(s, u, j);
    forall k | 0 <= k < |t|
      ensures s[j + i + k] == t[k]
    {
      assert t[k] == u[i..i + |t|][k] == u[i + k];
      assert u[i + k] == s[j..j + |u|][i + k] == s[j + i + k];
    }
    assert s[j + i..j + i + |t|] == t;
    var k: nat := j + i;
    assert k <= |s| && OccursAt(s, t, k);
  }


  /** The results of `f` over `xs`, concatenated in order. */
  function FlatMap<T, U>(f: T -> seq<U>, xs: seq<T>): seq<U> {
    if xs == [] then [] else FlatMap(f, xs[..|xs| - 1]) + f(xs[|xs| - 1])
  }

  lemma {:induction false} FlatMapAppend<T, U>(f: T -> seq<U>, a: seq<T>, b: seq<T>)
    ensures FlatMap(f, a + b) == FlatMap(f, a) + FlatMap(f, b)
    decreases |b|
  {
    if b == [] {
      assert a + b == a;
    } else {
      assert (a + b)[..|a + b| - 1] == a + b[..|b| - 1];
      FlatMapAppend(f, a, b[..|b| - 1]);
    }
  }

  lemma {:induction false} FlatMapMember<T, U>(f: T -> seq<U>, xs: seq<T>, u: U)
    requires u in FlatMap(f, xs)
    ensures exists k :: 0 <= k < |xs| && u in f(xs[k])
    decreases |xs|
  {
    var init := xs[..|xs| - 1];
    if u in FlatMap(f, init) {
      FlatMapMember(f, init, u);
      var k :| 0 <= k < |init| && u in f(init[k]);
      assert init[k] == xs[k];
    }
  }

  lemma {:induction false} FlatMapEmpty<T, U>(f: T -> seq<U>, xs: seq<T>)
    requires forall k :: 0 <= k < |xs| ==> f(xs[k]) == []
    ensures FlatMap(f, xs) == []
    decreases |xs|
  {
    if xs != [] {
      FlatMapEmpty(f, xs[..|xs| - 1]);
    }
  }

  /** When only the `k`th element contributes, the result is its contribution. */
  lemma {:induction false} FlatMapSingle<T, U>(f: T -> seq<U>, xs: seq<T>, k: nat)
    requires k < |xs| && forall j :: 0 <= j < |xs| && j != k ==> f(xs[j]) == []
    ensures FlatMap(f, xs) == f(xs[k])
    decreases |xs|
  {
    var init := xs[..|xs| - 1];
    assert forall j :: 0 <= j < |init| ==> init[j] == xs[j];
    if k == |xs| - 1 {
      FlatMapEmpty(f, init);
    } else {
      FlatMapSingle(f, init, k);
    }
  }

  lemma {:induction false} FlatMapIncludes<T, U>(f: T -> seq<U>, xs: seq<T>, k: nat, u: U)
    requires k < |xs| && u in f(xs[k])
    ensures u in FlatMap(f, xs)
    decreases |xs|
  {
    if k < |xs| - 1 {
      FlatMapIncludes(f, xs[..|xs| - 1], k, u);
    }
  }

  /*
   * printf("%u"): decimal digits of a natural number.
   */

  function DigitChar(d: nat): char
    requires d < 10
  {
    ['0', '1', '2', '3', '4', '5', '6', '7', '8', '9'][d]
  }

  predicate IsDigit(c: char) {
    '0' <= c <= '9'
  }

  /** A string of decimal digits only. */
  predicate AllDigits(s: string) {
    forall i :: 0 <= i < |s| ==> IsDigit(s[i])
  }

  function Decimal(n: nat): (r: string)
    ensures |r| >= 1
  {
    if n < 10 then [DigitChar(n)] else Decimal(n / 10) + [DigitChar(n % 10)]
  }

  /** The value of a run of decimal digits. */
  function DecimalValue(s: string): nat
    requires AllDigits(s)
  {
    if s == [] then 0
    else
      assert IsDigit(s[|s| - 1]);
      DecimalValue(s[..|s| - 1]) * 10 + ((s[|s| - 1] as int) - ('0' as int))
  }

  /** Printing a number gives digits only, with no leading zero, that read back as the number. */
  lemma {:induction false} DecimalRoundTrip(n: nat)
    ensures AllDigits(Decimal(n))
    ensures Decimal(n)[0] != '0' || n == 0
    ensures DecimalValue(Decimal(n)) == n
  {
    var r := Decimal(n);
    if n >= 10 {
      DecimalRoundTrip(n / 10);
      assert r[..|r| - 1] == Decimal(n / 10);
      assert r[0] == Decimal(n / 10)[0];
    }
  }
}
