/** Extraction of storefront product-page URLs from chat message text.

    The bot finds every match of the pattern
      https?://store\.steampowered\.com/app\S+
    with a left-to-right, non-overlapping search, and canonicalises each
    match by dropping its fragment (everything from the first '#').

    The pattern is a literal part followed by \S+.  Its literal part
    matches exactly one of two strings, so the search below is written for
    any list of literal alternatives followed by \S+, and the bot's
    pattern is the instance with the two spellings of the storefront
    prefix.  The pattern matches at the start of a text when one of the
    alternatives is there followed by at least one non-whitespace
    character; the greedy \S+ then runs on to the next whitespace
    character or the end of the text.
 */
module UrlExtractor {

  const HttpLiteral: string := "http://store.steampowered.com/app"
  const HttpsLiteral: string := "https://store.steampowered.com/app"

  /** The alternatives of the bot's literal part, in the order the engine
      tries them (the optional "s" is greedy). */
  const Literals: seq<string> := [HttpsLiteral, HttpLiteral]

  /** Whitespace as Python's regular expressions see it in a str pattern
      (the characters for which str.isspace() holds). */
  predicate IsSpace(c: char)
  {
    c == ' ' || c == '\t' || c == '\n' || c == '\r' || c == '\U{000B}' || c == '\U{000C}'
    || ('\U{001C}' <= c <= '\U{001F}')
    || c == '\U{0085}' || c == '\U{00A0}' || c == '\U{1680}'
    || ('\U{2000}' <= c <= '\U{200A}')
    || c == '\U{2028}' || c == '\U{2029}' || c == '\U{202F}' || c == '\U{205F}' || c == '\U{3000}'
  }

  /** No character of s is whitespace. */
  predicate NoSpace(s: string)
  {
    forall k :: 0 <= k < |s| ==> !IsSpace(s[k])
  }

  /** Neither of a and b is a prefix of the other: they differ at a
      position both have. */
  predicate Exclusive(a: string, b: string)
  {
    exists d :: 0 <= d < |a| && d < |b| && a[d] != b[d]
  }

  /** What the search relies on about the alternatives: each holds a ':'
      and neither whitespace nor '#', and no text starts with two of them. */
  predicate ValidLiterals(lits: seq<string>)
  {
    && (forall k :: 0 <= k < |lits| ==> ':' in lits[k] && '#' !in lits[k] && NoSpace(lits[k]))
    && (forall i, j :: 0 <= i < |lits| && 0 <= j < |lits| && i != j ==> Exclusive(lits[i], lits[j]))
  }

  /** The index of the first alternative u starts with, or |lits| when u
      starts with none of them. */
  function FirstLiteral(lits: seq<string>, u: string): (k: nat)
    ensures k <= |lits|
    ensures k < |lits| ==> lits[k] <= u
    ensures forall j :: 0 <= j < k ==> !(lits[j] <= u)
  {
    if lits == [] then 0
    else if lits[0] <= u then 0
    else
      var k := 1 + FirstLiteral(lits[1..], u);
      assert forall j :: 1 <= j < k ==> lits[j] == lits[1..][j - 1];
      k
  }

  /** u begins with one of the alternatives. */
  predicate StartsWithLiteral(lits: seq<string>, u: string)
  {
    FirstLiteral(lits, u) < |lits|
  }

  /** Length of the alternative at the start of u, or 0 when there is none. */
  function LiteralLen(lits: seq<string>, u: string): (n: nat)
    ensures n <= |u|
    ensures StartsWithLiteral(lits, u) ==> u[..n] == lits[FirstLiteral(lits, u)]
  {
    var k := FirstLiteral(lits, u);
    if k < |lits| then |lits[k]| else 0
  }

  /** Position j of s holds a non-whitespace character. */
  predicate NonSpaceAt(s: string, j: nat)
  {
    j < |s| && !IsSpace(s[j])
  }

  /** The pattern matches at the start of u: an alternative, then at least
      one non-whitespace character. */
  predicate Match(lits: seq<string>, u: string)
  {
    StartsWithLiteral(lits, u) && NonSpaceAt(u, LiteralLen(lits, u))
  }

  /** End of the longest whitespace-free run of s that starts at j. */
  function RunEnd(s: string, j: nat): (e: nat)
    requires j <= |s|
    ensures j <= e <= |s|
    ensures NoSpace(s[j..e])
    ensures e == |s| || IsSpace(s[e])
    decreases |s| - j
  {
    if j == |s| || IsSpace(s[j]) then j
    else
      var e := RunEnd(s, j + 1);
      assert s[j..e] == [s[j]] + s[j + 1..e];
      e
  }

  /** Length of the match at the start of u: the \S+ after the literal
      takes the whole whitespace-free run. */
  function MatchLen(lits: seq<string>, u: string): (e: nat)
    requires Match(lits, u)
    ensures LiteralLen(lits, u) < e <= |u|
    ensures NoSpace(u[LiteralLen(lits, u)..e])
    ensures e == |u| || IsSpace(u[e])
  {
    RunEnd(u, LiteralLen(lits, u))
  }

  /** re.findall for the pattern: the matches a left-to-right search finds
      in u.  Where the pattern matches, the match is taken and the search
      resumes after it; elsewhere the search moves on by one character. */
  function FindAll(lits: seq<string>, u: string): seq<string>
    decreases |u|
  {
    if u == [] then []
    else if Match(lits, u) then
      var e := MatchLen(lits, u);
      [u[..e]] + FindAll(lits, u[e..])
    else FindAll(lits, u[1..])
  }

  /** The stretches of u that the search passes over: the text before the
      first match, between consecutive matches, and after the last one. */
  function Gaps(lits: seq<string>, u: string): (r: seq<string>)
    ensures |r| == |FindAll(lits, u)| + 1
    decreases |u|
  {
    if u == [] then [[]]
    else if Match(lits, u) then [[]] + Gaps(lits, u[MatchLen(lits, u)..])
    else
      var g := Gaps(lits, u[1..]);
      [[u[0]] + g[0]] + g[1..]
  }

  /** The gaps and the matches put back together, in turn. */
  function Weave(gaps: seq<string>, ms: seq<string>): string
    requires |gaps| == |ms| + 1
    decreases |ms|
  {
    if ms == [] then gaps[0]
    else gaps[0] + ms[0] + Weave(gaps[1..], ms[1..])
  }

  /** urldefrag's URL part: the text before the first '#', or all of it. */
  function Defrag(u: string): (r: string)
    ensures r <= u
    ensures '#' !in r
    ensures r == u || u[|r|] == '#'
  {
    if u == [] || u[0] == '#' then []
    else [u[0]] + Defrag(u[1..])
  }

  /** The canonical URLs the bot extracts from a message: each match of
      findall with its fragment dropped, that is, cut just before its
      first '#' when it has one and kept whole otherwise. */
  function Canonical(matches: seq<string>): (r: seq<string>)
    ensures |r| == |matches|
    ensures forall k :: 0 <= k < |r| ==>
      && r[k] <= matches[k]
      && '#' !in r[k]
      && (r[k] == matches[k] || matches[k][|r[k]|] == '#')
  {
    seq(|matches|, k requires 0 <= k < |matches| => Defrag(matches[k]))
  }

  // ---------------------------------------------------------------------
  // The extractor as the bot runs it

  /** parse_urls: findall, then replace each match in place by its
      defragmented form. */
  method ParseUrls(message: string) returns (matches: seq<string>)
    ensures matches == Canonical(FindAll(Literals, message))
  {
    matches := FindAll(Literals, message);
    ghost var found := matches;
    for k := 0 to |matches|
      invariant |matches| == |found|
      invariant forall j :: 0 <= j < k ==> matches[j] == Defrag(found[j])
      invariant forall j :: k <= j < |matches| ==> matches[j] == found[j]
    {
      matches := matches[k := Defrag(matches[k])];
    }
  }

  // ---------------------------------------------------------------------
  // The bot's alternatives

  /** The two spellings of the storefront prefix meet what the search relies on. */
  lemma LiteralsValid()
    ensures ValidLiterals(Literals)
    ensures |Literals[0]| == 34 && |Literals[1]| == 33
  {
    assert Literals[0] == HttpsLiteral && Literals[1] == HttpLiteral;
    LiteralText(HttpsLiteral);
    LiteralText(HttpLiteral);
    assert HttpsLiteral[5] == ':' && HttpLiteral[4] == ':';
    assert HttpsLiteral[4] != HttpLiteral[4];
    assert Exclusive(HttpsLiteral, HttpLiteral) && Exclusive(HttpLiteral, HttpsLiteral);
  }

  /** Text drawn from '.' to 'z' has neither whitespace nor '#'. */
  lemma LiteralText(lit: string)
    requires lit == HttpsLiteral || lit == HttpLiteral
    ensures NoSpace(lit) && '#' !in lit
  {
    assert forall k :: 0 <= k < |lit| ==> '.' <= lit[k] <= 'z';
  }

  // ---------------------------------------------------------------------
  // Small facts about the alternatives and the runs

  /** The alternative at the start of u contains no whitespace and no '#',
      and holds a ':'. */
  lemma LiteralChars(lits: seq<string>, u: string)
    requires ValidLiterals(lits) && StartsWithLiteral(lits, u)
    ensures var n := LiteralLen(lits, u);
      0 < n && NoSpace(u[..n]) && '#' !in u[..n] && ':' in u[..n]
  {
    var k := FirstLiteral(lits, u);
    assert ':' in lits[k];
  }

  lemma LiteralHasColon(lits: seq<string>, u: string)
    requires ValidLiterals(lits)
    ensures StartsWithLiteral(lits, u) ==> ':' in u
  {
    if StartsWithLiteral(lits, u) {
      LiteralChars(lits, u);
      var n := LiteralLen(lits, u);
      assert forall x :: x in u[..n] ==> x in u;
    }
  }

  /** A string that begins with the alternative at the start of u starts
      with the same alternative. */
  lemma LiteralCarries(lits: seq<string>, u: string, v: string)
    requires ValidLiterals(lits) && StartsWithLiteral(lits, u)
    requires u[..LiteralLen(lits, u)] <= v
    ensures StartsWithLiteral(lits, v) && FirstLiteral(lits, v) == FirstLiteral(lits, u)
    ensures LiteralLen(lits, v) == LiteralLen(lits, u)
  {
    var k := FirstLiteral(lits, u);
    var lit := lits[k];
    assert lit <= v;
    forall j | 0 <= j < k
      ensures !(lits[j] <= v)
    {
      var d :| 0 <= d < |lits[j]| && d < |lit| && lits[j][d] != lit[d];
      assert v[d] == lit[d];
    }
  }

  /** A whitespace-free stretch does not end a run: the run from j reaches
      as far as the run from m when s[j..m] has no whitespace. */
  lemma {:induction false} RunEndSkip(s: string, j: nat, m: nat)
    requires j <= m <= |s|
    requires NoSpace(s[j..m])
    ensures RunEnd(s, j) == RunEnd(s, m)
    decreases m - j
  {
    if j < m {
      assert s[j] == s[j..m][0];
      assert s[j + 1..m] == s[j..m][1..];
      RunEndSkip(s, j + 1, m);
    }
  }

  /** Since the alternatives hold no whitespace, a match is the whole
      whitespace-free run at the start of u. */
  lemma MatchLenRun(lits: seq<string>, u: string)
    requires ValidLiterals(lits) && Match(lits, u)
    ensures MatchLen(lits, u) == RunEnd(u, 0)
    ensures NoSpace(u[..MatchLen(lits, u)])
  {
    var n := LiteralLen(lits, u);
    LiteralChars(lits, u);
    assert u[0..n] == u[..n];
    RunEndSkip(u, 0, n);
    assert u[0..MatchLen(lits, u)] == u[..MatchLen(lits, u)];
  }

  // ---------------------------------------------------------------------
  // The search: order, no overlap, leftmost

  /** The matches come in order and do not overlap: the gaps and the
      matches, interleaved, give back the text. */
  lemma {:induction false} FindAllWeave(lits: seq<string>, u: string)
    ensures Weave(Gaps(lits, u), FindAll(lits, u)) == u
    decreases |u|
  {
    if u == [] {
      assert Weave(Gaps(lits, u), FindAll(lits, u)) == [[]][0];
    } else if Match(lits, u) {
      FindAllWeave(lits, u[MatchLen(lits, u)..]);
      WeaveAfterMatch(lits, u);
    } else {
      FindAllWeave(lits, u[1..]);
      WeaveAfterSkip(lits, u);
    }
  }

  lemma WeaveAfterMatch(lits: seq<string>, u: string)
    requires u != [] && Match(lits, u)
    requires var e := MatchLen(lits, u); Weave(Gaps(lits, u[e..]), FindAll(lits, u[e..])) == u[e..]
    ensures Weave(Gaps(lits, u), FindAll(lits, u)) == u
  {
    var e := MatchLen(lits, u);
    var gaps, ms := Gaps(lits, u[e..]), FindAll(lits, u[e..]);
    assert Gaps(lits, u) == [[]] + gaps;
    assert FindAll(lits, u) == [u[..e]] + ms;
    WeaveMatched(u, e, gaps, ms);
  }

  /** A match put back in front of the rest of the text. */
  lemma WeaveMatched(u: string, e: nat, gaps: seq<string>, ms: seq<string>)
    requires e <= |u| && |gaps| == |ms| + 1
    requires Weave(gaps, ms) == u[e..]
    ensures Weave([[]] + gaps, [u[..e]] + ms) == u
  {
    WeaveCons([], u[..e], gaps, ms);
    assert [] + u[..e] == u[..e];
    assert u == u[..e] + u[e..];
  }

  lemma WeaveAfterSkip(lits: seq<string>, u: string)
    requires u != [] && !Match(lits, u)
    requires Weave(Gaps(lits, u[1..]), FindAll(lits, u[1..])) == u[1..]
    ensures Weave(Gaps(lits, u), FindAll(lits, u)) == u
  {
    var gaps, ms := Gaps(lits, u[1..]), FindAll(lits, u[1..]);
    assert Gaps(lits, u) == [[u[0]] + gaps[0]] + gaps[1..];
    assert FindAll(lits, u) == ms;
    WeaveSkip(u[0], gaps, ms);
    assert u == [u[0]] + u[1..];
  }

  lemma WeaveCons(g: string, m: string, gaps: seq<string>, ms: seq<string>)
    requires |gaps| == |ms| + 1
    ensures Weave([g] + gaps, [m] + ms) == g + m + Weave(gaps, ms)
  {
    assert ([g] + gaps)[1..] == gaps && ([m] + ms)[1..] == ms;
  }

  /** A character passed over joins the first gap. */
  lemma WeaveSkip(c: char, gaps: seq<string>, ms: seq<string>)
    requires |gaps| == |ms| + 1
    ensures Weave([[c] + gaps[0]] + gaps[1..], ms) == [c] + Weave(gaps, ms)
  {
    if ms != [] {
      var rest := Weave(gaps[1..], ms[1..]);
      assert ([[c] + gaps[0]] + gaps[1..])[1..] == gaps[1..];
      assert ([c] + gaps[0]) + ms[0] + rest == [c] + (gaps[0] + ms[0] + rest);
    }
  }

  /** Positions where the pattern does not match are passed over: findall
      of s is findall of what follows them. */
  lemma {:induction false} FindAllSuffix(lits: seq<string>, s: string, i: nat)
    requires i <= |s|
    requires forall q :: 0 <= q < i ==> !Match(lits, s[q..])
    ensures FindAll(lits, s) == FindAll(lits, s[i..])
    decreases i
  {
    if i > 0 {
      assert s[0..] == s;
      forall q | 0 <= q < i - 1
        ensures !Match(lits, s[1..][q..])
      {
        assert s[1..][q..] == s[q + 1..];
      }
      FindAllSuffix(lits, s[1..], i - 1);
      assert s[1..][i - 1..] == s[i..];
    }
  }

  /** The search takes the leftmost match first, and takes it whole: when
      p is the first position where the pattern matches, findall starts
      with the match at p and carries on after it. */
  lemma FindAllFirst(lits: seq<string>, s: string, p: nat)
    requires p < |s| && Match(lits, s[p..])
    requires forall q :: 0 <= q < p ==> !Match(lits, s[q..])
    ensures var e := MatchLen(lits, s[p..]);
      FindAll(lits, s) == [s[p..p + e]] + FindAll(lits, s[p + e..])
  {
    FindAllSuffix(lits, s, p);
    var e := MatchLen(lits, s[p..]);
    assert s[p..][..e] == s[p..p + e];
    assert s[p..][e..] == s[p + e..];
  }

  /** Where the pattern matches somewhere, findall finds something. */
  lemma {:induction false} FindAllSome(lits: seq<string>, s: string, p: nat)
    requires p < |s| && Match(lits, s[p..])
    ensures FindAll(lits, s) != []
    decreases p
  {
    assert s[0..] == s;
    if !Match(lits, s) {
      assert p > 0;
      assert s[1..][p - 1..] == s[p..];
      FindAllSome(lits, s[1..], p - 1);
    }
  }

  /** findall finds nothing exactly when the pattern matches nowhere. */
  lemma FindAllEmpty(lits: seq<string>, s: string)
    ensures FindAll(lits, s) == [] <==> forall p :: 0 <= p < |s| ==> !Match(lits, s[p..])
  {
    if forall p :: 0 <= p < |s| ==> !Match(lits, s[p..]) {
      FindAllSuffix(lits, s, |s|);
      assert s[|s|..] == [];
    } else {
      var p :| 0 <= p < |s| && Match(lits, s[p..]);
      FindAllSome(lits, s, p);
    }
  }

  // ---------------------------------------------------------------------
  // The shape of what is returned

  /** The text the pattern matches: an alternative, at least one more
      character, and no whitespace; searched on its own, it is one match. */
  lemma MatchShape(lits: seq<string>, u: string)
    requires ValidLiterals(lits) && Match(lits, u)
    ensures NoSpace(u[..MatchLen(lits, u)]) && Match(lits, u[..MatchLen(lits, u)])
    ensures FindAll(lits, u[..MatchLen(lits, u)]) == [u[..MatchLen(lits, u)]]
  {
    MatchLenRun(lits, u);
    var e := MatchLen(lits, u);
    var m := u[..e];
    var n := LiteralLen(lits, u);
    assert m[..n] == u[..n];
    LiteralCarries(lits, u, m);
    FindAllWord(lits, m);
  }

  /** Every match findall returns starts with an alternative, has at least
      one character after it, and contains no whitespace. */
  lemma {:induction false} FindAllShape(lits: seq<string>, u: string)
    requires ValidLiterals(lits)
    ensures forall m :: m in FindAll(lits, u) ==> NoSpace(m) && Match(lits, m)
    decreases |u|
  {
    if u != [] {
      if Match(lits, u) {
        MatchShape(lits, u);
        FindAllShape(lits, u[MatchLen(lits, u)..]);
      } else {
        FindAllShape(lits, u[1..]);
      }
    }
  }

  /** Dropping the fragment keeps a '#'-free prefix. */
  lemma {:induction false} DefragKeepsPrefix(u: string, pre: string)
    requires pre <= u && '#' !in pre
    ensures pre <= Defrag(u)
  {
    if pre != [] {
      assert u[0] == pre[0];
      DefragKeepsPrefix(u[1..], pre[1..]);
    }
  }

  /** A defragmented match still starts with an alternative and has
      neither whitespace nor '#'. */
  lemma DefragShape(lits: seq<string>, m: string)
    requires ValidLiterals(lits) && NoSpace(m) && StartsWithLiteral(lits, m)
    ensures StartsWithLiteral(lits, Defrag(m)) && NoSpace(Defrag(m)) && '#' !in Defrag(m)
  {
    LiteralChars(lits, m);
    var lit := m[..LiteralLen(lits, m)];
    DefragKeepsPrefix(m, lit);
    LiteralCarries(lits, m, Defrag(m));
    var u := Defrag(m);
    assert forall j :: 0 <= j < |u| ==> u[j] == m[j];
  }

  /** Every URL the extractor returns starts with one of the two spellings
      of the storefront prefix and contains neither whitespace nor '#'. */
  lemma ParseUrlsShape(message: string)
    ensures forall u :: u in Canonical(FindAll(Literals, message)) ==>
      StartsWithLiteral(Literals, u) && NoSpace(u) && '#' !in u
  {
    LiteralsValid();
    var found := FindAll(Literals, message);
    var urls := Canonical(found);
    FindAllShape(Literals, message);
    forall k | 0 <= k < |urls|
      ensures StartsWithLiteral(Literals, urls[k]) && NoSpace(urls[k]) && '#' !in urls[k]
    {
      assert found[k] in found;
      DefragShape(Literals, found[k]);
    }
  }

  // ---------------------------------------------------------------------
  // How findall composes around whitespace

  /** No alternative runs across a whitespace character. */
  lemma LiteralBeforeSpace(a: string, c: char, b: string, lit: string)
    requires IsSpace(c) && NoSpace(lit)
    ensures lit <= a + [c] + b <==> lit <= a
  {
    var s := a + [c] + b;
    assert |lit| > |a| ==> s[|a|] == c;
    if lit <= a {
      assert s[..|lit|] == a[..|lit|];
    }
    if lit <= s && |lit| <= |a| {
      assert s[..|lit|] == a[..|lit|];
    }
  }

  /** The alternative found at the start of a + [c] + b, for whitespace c,
      is the one found at the start of a. */
  lemma {:induction false} FirstLiteralBeforeSpace(lits: seq<string>, a: string, c: char, b: string)
    requires IsSpace(c)
    requires forall k :: 0 <= k < |lits| ==> NoSpace(lits[k])
    ensures FirstLiteral(lits, a + [c] + b) == FirstLiteral(lits, a)
  {
    if lits != [] {
      LiteralBeforeSpace(a, c, b, lits[0]);
      FirstLiteralBeforeSpace(lits[1..], a, c, b);
    }
  }

  lemma {:induction false} RunEndBeforeSpace(a: string, c: char, b: string, j: nat)
    requires IsSpace(c) && j <= |a|
    ensures RunEnd(a + [c] + b, j) == RunEnd(a, j)
    decreases |a| - j
  {
    if j < |a| {
      assert (a + [c] + b)[j] == a[j];
      RunEndBeforeSpace(a, c, b, j + 1);
    }
  }

  /** Whether and how far the pattern matches at the start of a + [c] + b,
      for whitespace c, is decided by a alone. */
  lemma MatchBeforeSpace(lits: seq<string>, a: string, c: char, b: string)
    requires ValidLiterals(lits) && IsSpace(c)
    ensures Match(lits, a + [c] + b) == Match(lits, a)
    ensures Match(lits, a) ==> MatchLen(lits, a + [c] + b) == MatchLen(lits, a)
  {
    var s := a + [c] + b;
    FirstLiteralBeforeSpace(lits, a, c, b);
    var n := LiteralLen(lits, a);
    assert n < |a| ==> s[n] == a[n];
    assert n == |a| ==> s[n] == c;
    if Match(lits, a) {
      RunEndBeforeSpace(a, c, b, n);
    }
  }

  /** Whitespace separates matches: findall of a + [c] + b, for a
      whitespace character c, is findall of a followed by findall of b. */
  lemma {:induction false} FindAllSplit(lits: seq<string>, a: string, c: char, b: string)
    requires ValidLiterals(lits) && IsSpace(c)
    ensures FindAll(lits, a + [c] + b) == FindAll(lits, a) + FindAll(lits, b)
    decreases |a|
  {
    var s := a + [c] + b;
    MatchBeforeSpace(lits, a, c, b);
    if a == [] {
      assert s[1..] == b;
      assert !Match(lits, s) by {
        if StartsWithLiteral(lits, s) {
          LiteralChars(lits, s);
          assert s[..LiteralLen(lits, s)][0] == c;
        }
      }
    } else if Match(lits, a) {
      var e := MatchLen(lits, a);
      assert s[..e] == a[..e];
      assert s[e..] == a[e..] + [c] + b;
      FindAllSplit(lits, a[e..], c, b);
    } else {
      assert s[1..] == a[1..] + [c] + b;
      FindAllSplit(lits, a[1..], c, b);
    }
  }

  /** A whitespace-free word that the pattern matches at its start is one
      match, whole: any URL glued to its end is swallowed. */
  lemma FindAllWord(lits: seq<string>, w: string)
    requires NoSpace(w) && Match(lits, w)
    ensures FindAll(lits, w) == [w]
  {
    var n := LiteralLen(lits, w);
    assert w[n..|w|] == w[n..];
    RunEndSkip(w, n, |w|);
    assert w[..|w|] == w;
    assert w[|w|..] == [];
  }

  /** Text no longer than the shortest alternative holds no match. */
  lemma FindAllShort(lits: seq<string>, s: string)
    requires forall k :: 0 <= k < |lits| ==> |s| <= |lits[k]|
    ensures FindAll(lits, s) == []
  {
    FindAllEmpty(lits, s);
  }

  /** Text without a ':' holds no match. */
  lemma FindAllNoColon(lits: seq<string>, s: string)
    requires ValidLiterals(lits) && ':' !in s
    ensures FindAll(lits, s) == []
  {
    forall p | 0 <= p < |s| ensures !Match(lits, s[p..]) {
      assert forall x :: x in s[p..] ==> x in s;
      LiteralHasColon(lits, s[p..]);
    }
    FindAllEmpty(lits, s);
  }
}
