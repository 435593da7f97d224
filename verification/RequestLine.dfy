/**
 The request-line tokenizer: GET, blanks, target, blanks, HTTP/1.1, cut apart in place.  The forms of
 the target are those of sections 3.2.1 and 3.2.2 of RFC 9112.
 */
module RequestLine {

  const NUL := '\0'

  predicate Blank(c: char) {
    c == ' ' || c == '\t'
  }

  /** tolower in the C locale. */
  function Lower(c: char): char {
    if 'A' <= c <= 'Z' then ((c as int) + 32) as char else c
  }

  predicate SameIgnoringCase(s: seq<char>, t: seq<char>) {
    |s| == |t| && forall i :: 0 <= i < |s| ==> Lower(s[i]) == Lower(t[i])
  }

  /** The first index from i on whose character stops the scan; |s| if none does. */
  function Scan(s: seq<char>, i: nat, stop: char -> bool): (k: nat)
    requires i <= |s|
    ensures i <= k <= |s|
    ensures forall j :: i <= j < k ==> !stop(s[j])
    ensures k < |s| ==> stop(s[k])
    decreases |s| - i
  {
    if i == |s| || stop(s[i]) then i else Scan(s, i + 1, stop)
  }

  // The stops of strpbrk(., " \t"), strspn(., " \t") and strchr(., '/'); each of them stops at NUL.
  const AT_BLANK := (c: char) => Blank(c) || c == NUL
  const PAST_BLANKS := (c: char) => !Blank(c)
  const AT_SLASH := (c: char) => c == '/' || c == NUL

  datatype Verdict = Bad | Request(path: seq<char>)

  /** The path of a target: the target itself, or what follows the authority of an http URL. */
  function PathOf(target: seq<char>): Verdict {
    if |target| >= 7 && SameIgnoringCase(target[..7], "http://") then
      var p := Scan(target, 7, AT_SLASH);
      if p == |target| then Bad else Request(target[p..])
    else if target != [] && target[0] == '/' then Request(target)
    else Bad
  }

  /** The index of the first stop of a whole string. */
  function Until(s: seq<char>, stop: char -> bool): (k: nat)
    ensures k <= |s|
  {
    Scan(s, 0, stop)
  }

  /** Where the pieces of a request line end: method, blanks, target, blanks. */
  datatype Cuts = Cuts(a: nat, b: nat, c: nat, d: nat)

  /** Where the pointers of the source come to stand; each scan starts behind the NUL just written. */
  function CutUp(s: seq<char>): (x: Cuts)
    ensures x.a <= x.b <= x.c <= x.d <= |s|
  {
    var a := Until(s, AT_BLANK);
    var b := if a == |s| then a else a + 1 + Until(s[a + 1..], PAST_BLANKS);
    var c := b + Until(s[b..], AT_BLANK);
    var d := if c == |s| then c else c + 1 + Until(s[c + 1..], PAST_BLANKS);
    Cuts(a, b, c, d)
  }

  /** The tests on everything but the target. */
  predicate Fits(s: seq<char>, x: Cuts)
    requires x.a <= x.b <= x.c <= x.d <= |s|
  {
    && x.a < |s| && SameIgnoringCase(s[..x.a], "GET")
    && x.c < |s| && SameIgnoringCase(s[x.d..], "HTTP/1.1")
  }

  /** What the source decides about the string s. */
  function Parse(s: seq<char>): Verdict {
    var x := CutUp(s);
    if Fits(s, x) then PathOf(s[x.b..x.c]) else Bad
  }

  // ----- the grammar

  /** The same character, or the same letter in the other case. */
  ghost predicate SameLetter(c: char, d: char) {
    || c == d
    || ('A' <= c <= 'Z' && 'a' <= d <= 'z' && d as int - c as int == 32)
    || ('a' <= c <= 'z' && 'A' <= d <= 'Z' && c as int - d as int == 32)
  }

  /** t is s with the case of some letters changed. */
  ghost predicate Recased(s: seq<char>, t: seq<char>) {
    |s| == |t| && forall i :: 0 <= i < |s| ==> SameLetter(s[i], t[i])
  }

  lemma IgnoringCaseExactly(s: seq<char>, t: seq<char>)
    ensures SameIgnoringCase(s, t) <==> Recased(s, t)
  {
    forall i | 0 <= i < |s| == |t| ensures SameLetter(s[i], t[i]) <==> Lower(s[i]) == Lower(t[i]) {
    }
  }

  ghost predicate IsBlank(c: char) {
    c == ' ' || c == '\t'
  }

  ghost predicate Blanks(s: seq<char>) {
    s != [] && forall i :: 0 <= i < |s| ==> IsBlank(s[i])
  }

  ghost predicate Word(s: seq<char>) {
    s != [] && forall i :: 0 <= i < |s| ==> !IsBlank(s[i]) && s[i] != NUL
  }

  /** s is GET, blanks, a target, blanks, HTTP/1.1. */
  ghost predicate IsSplit(s: seq<char>, x: Cuts) {
    && x.a <= x.b <= x.c <= x.d <= |s|
    && Recased(s[..x.a], "GET") && Blanks(s[x.a..x.b])
    && Word(s[x.b..x.c])
    && Blanks(s[x.c..x.d]) && Recased(s[x.d..], "HTTP/1.1")
  }

  /** From p on target is a path; before it comes nothing, or http:// and an authority (perhaps empty). */
  ghost predicate HasPath(target: seq<char>, p: nat, path: seq<char>) {
    && p < |target| && target[p] == '/' && path == target[p..]
    && (p == 0 || (7 <= p && Recased(target[..7], "http://")
                   && forall i :: 7 <= i < p ==> target[i] != '/'))
  }

  lemma PathOfExactly(target: seq<char>, path: seq<char>)
    requires Word(target)
    ensures PathOf(target) == Request(path) <==> exists p: nat :: HasPath(target, p, path)
  {
    if |target| >= 7 {
      IgnoringCaseExactly(target[..7], "http://");
    }
    if PathOf(target) == Request(path) {
      var isUrl := |target| >= 7 && SameIgnoringCase(target[..7], "http://");
      assert HasPath(target, if isUrl then Scan(target, 7, AT_SLASH) else 0, path);
    }
  }

  lemma LettersAreNotBlank(s: seq<char>, t: seq<char>)
    requires Recased(s, t) && (t == "GET" || t == "HTTP/1.1")
    ensures forall i :: 0 <= i < |s| ==> !Blank(s[i]) && s[i] != NUL
  {
  }

  lemma WalkFrom(s: seq<char>, i: nat, stop: char -> bool)
    requires i <= |s|
    ensures Scan(s, i, stop) == i + Scan(s[i..], 0, stop)
  {
  }

  lemma ScanPastBlanks(s: seq<char>, i: nat, k: nat)
    requires i < k < |s| && Blanks(s[i..k]) && !Blank(s[k])
    ensures Blank(s[i]) && i + 1 + Until(s[i + 1..], PAST_BLANKS) == k
  {
  }

  lemma ScanToBlank(s: seq<char>, i: nat, k: nat)
    requires i <= k < |s| && Blank(s[k])
    requires forall j :: 0 <= j < |s[i..k]| ==> !Blank(s[i..k][j]) && s[i..k][j] != NUL
    ensures i + Until(s[i..], AT_BLANK) == k
  {
    forall j | i <= j < k ensures !AT_BLANK(s[j]) {
      assert s[i..k][j - i] == s[j];
    }
  }

  /** The ends of the words of a split, and of the gaps between them. */
  lemma SplitEnds(s: seq<char>, x: Cuts)
    requires IsSplit(s, x)
    ensures x.a < x.b < x.c < x.d < |s|
    ensures Blank(s[x.a]) && !Blank(s[x.b]) && Blank(s[x.c]) && !Blank(s[x.d])
    ensures forall j :: 0 <= j < |s[0..x.a]| ==> !Blank(s[0..x.a][j]) && s[0..x.a][j] != NUL
  {
    LettersAreNotBlank(s[..x.a], "GET");
    LettersAreNotBlank(s[x.d..], "HTTP/1.1");
    assert s[0..x.a] == s[..x.a];
    assert s[x.a] == s[x.a..x.b][0] && s[x.b] == s[x.b..x.c][0];
    assert s[x.c] == s[x.c..x.d][0] && s[x.d] == s[x.d..][0];
  }

  lemma SplitFits(s: seq<char>, x: Cuts)
    requires IsSplit(s, x)
    ensures Fits(s, x)
  {
    SplitEnds(s, x);
    IgnoringCaseExactly(s[..x.a], "GET");
    IgnoringCaseExactly(s[x.d..], "HTTP/1.1");
  }

  /** The end of a word, and of the gap behind it. */
  function WordAndGap(s: seq<char>, i: nat): (ends: (nat, nat))
    requires i <= |s|
    ensures i <= ends.0 <= ends.1 <= |s|
  {
    var c := i + Until(s[i..], AT_BLANK);
    (c, if c == |s| then c else c + 1 + Until(s[c + 1..], PAST_BLANKS))
  }

  lemma CutUpInTwo(s: seq<char>)
    ensures var x := CutUp(s); (x.a, x.b) == WordAndGap(s, 0) && (x.c, x.d) == WordAndGap(s, x.b)
  {
    assert s[0..] == s;
  }

  lemma WordAndGapIs(s: seq<char>, i: nat, c: nat, d: nat)
    requires i <= c < d < |s| && Blank(s[c]) && Blanks(s[c..d]) && !Blank(s[d])
    requires forall j :: 0 <= j < |s[i..c]| ==> !Blank(s[i..c][j]) && s[i..c][j] != NUL
    ensures WordAndGap(s, i) == (c, d)
  {
    ScanPastBlanks(s, c, d);
    ScanToBlank(s, i, c);
  }

  /** There is at most one way to split a string, the one the scans find. */
  lemma SplitIsCutUp(s: seq<char>, x: Cuts)
    requires IsSplit(s, x)
    ensures x == CutUp(s) && Fits(s, x)
  {
    SplitFits(s, x);
    SplitEnds(s, x);
    WordAndGapIs(s, 0, x.a, x.b);
    WordAndGapIs(s, x.b, x.c, x.d);
    CutUpInTwo(s);
  }

  lemma GapsAtCuts(s: seq<char>)
    requires NUL !in s && CutUp(s).c < |s|
    ensures var x := CutUp(s); Blanks(s[x.a..x.b]) && Blanks(s[x.c..x.d])
  {
  }

  /** A string the source accepts has a split. */
  lemma AcceptedIsSplit(s: seq<char>)
    requires NUL !in s && Parse(s).Request?
    ensures IsSplit(s, CutUp(s)) && Parse(s) == PathOf(s[CutUp(s).b..CutUp(s).c])
  {
    var x := CutUp(s);
    GapsAtCuts(s);
    IgnoringCaseExactly(s[..x.a], "GET");
    IgnoringCaseExactly(s[x.d..], "HTTP/1.1");
  }

  /** The accepted strings are exactly those of the grammar, and the path is the grammar's. */
  lemma AcceptsExactlyTheGrammar(s: seq<char>, path: seq<char>)
    requires NUL !in s
    ensures Parse(s) == Request(path) <==>
            exists x, p: nat :: IsSplit(s, x) && HasPath(s[x.b..x.c], p, path)
  {
    if Parse(s) == Request(path) {
      var x := CutUp(s);
      AcceptedIsSplit(s);
      PathOfExactly(s[x.b..x.c], path);
      var p: nat :| HasPath(s[x.b..x.c], p, path);
    }
    forall x, p: nat | IsSplit(s, x) && HasPath(s[x.b..x.c], p, path)
      ensures Parse(s) == Request(path)
    {
      SplitIsCutUp(s, x);
      PathOfExactly(s[x.b..x.c], path);
    }
  }

  lemma SplitIsUnique(s: seq<char>, x: Cuts, y: Cuts)
    requires IsSplit(s, x) && IsSplit(s, y)
    ensures x == y
  {
    SplitIsCutUp(s, x);
    SplitIsCutUp(s, y);
  }

  lemma ScanRecased(s: seq<char>, t: seq<char>, i: nat, stop: char -> bool)
    requires |s| == |t| && i <= |s| && forall j :: 0 <= j < |s| ==> (stop(s[j]) <==> stop(t[j]))
    ensures Scan(s, i, stop) == Scan(t, i, stop)
  {
  }

  lemma UntilRecased(s: seq<char>, t: seq<char>, i: nat)
    requires Recased(s, t) && i <= |s|
    ensures Until(s[i..], AT_BLANK) == Until(t[i..], AT_BLANK)
    ensures Until(s[i..], PAST_BLANKS) == Until(t[i..], PAST_BLANKS)
  {
    ScanRecased(s[i..], t[i..], 0, AT_BLANK);
    ScanRecased(s[i..], t[i..], 0, PAST_BLANKS);
  }

  lemma WordAndGapRecased(s: seq<char>, t: seq<char>, i: nat)
    requires Recased(s, t) && i <= |s|
    ensures WordAndGap(s, i) == WordAndGap(t, i)
  {
    var c := i + Until(s[i..], AT_BLANK);
    UntilRecased(s, t, i);
    if c < |s| {
      UntilRecased(s, t, c + 1);
    }
  }

  lemma CutUpRecased(s: seq<char>, t: seq<char>)
    requires Recased(s, t)
    ensures CutUp(s) == CutUp(t)
  {
    CutUpInTwo(s);
    CutUpInTwo(t);
    WordAndGapRecased(s, t, 0);
    WordAndGapRecased(s, t, CutUp(s).b);
  }

  lemma SliceRecased(s: seq<char>, t: seq<char>, i: nat, j: nat)
    requires Recased(s, t) && i <= j <= |s|
    ensures Recased(s[i..j], t[i..j])
  {
  }

  lemma EndOfSlice(s: seq<char>, i: nat, j: nat, n: nat)
    requires i <= j <= |s| && n <= j - i
    ensures s[i..j][j - i - n..] == s[j - n..j]
  {
  }

  lemma SameRecased(s: seq<char>, t: seq<char>, i: nat, j: nat, word: seq<char>)
    requires Recased(s, t) && i <= j <= |s|
    ensures SameIgnoringCase(s[i..j], word) <==> SameIgnoringCase(t[i..j], word)
  {
    IgnoringCaseExactly(s, t);
    forall k | 0 <= k < j - i ensures Lower(s[i..j][k]) == Lower(t[i..j][k]) {
      assert Lower(s[i + k]) == Lower(t[i + k]);
    }
    IgnoringCaseExactly(s[i..j], t[i..j]);
  }

  lemma PathOfRecased(s: seq<char>, t: seq<char>)
    requires Recased(s, t)
    ensures match PathOf(s)
            case Bad => PathOf(t) == Bad
            case Request(path) =>
              |path| <= |s| && path == s[|s| - |path|..] && PathOf(t) == Request(t[|s| - |path|..])
  {
    if |s| >= 7 {
      SameRecased(s, t, 0, 7, "http://");
      assert s[0..7] == s[..7] && t[0..7] == t[..7];
      ScanRecased(s, t, 7, AT_SLASH);
    }
  }

  lemma FitsRecased(s: seq<char>, t: seq<char>)
    requires Recased(s, t)
    ensures CutUp(s) == CutUp(t) && Fits(s, CutUp(s)) == Fits(t, CutUp(s))
  {
    var x := CutUp(s);
    CutUpRecased(s, t);
    SameRecased(s, t, 0, x.a, "GET");
    SameRecased(s, t, x.d, |s|, "HTTP/1.1");
    assert s[0..x.a] == s[..x.a] && t[0..x.a] == t[..x.a];
    assert s[x.d..|s|] == s[x.d..] && t[x.d..|s|] == t[x.d..];
  }

  /**
   Changing the case of letters, in the method, the version, the scheme or anywhere else, changes
   neither whether a line is accepted nor where in it the path stands.
   */
  lemma CaseDoesNotMatter(s: seq<char>, t: seq<char>)
    requires Recased(s, t)
    ensures match Parse(s)
            case Bad => Parse(t) == Bad
            case Request(path) =>
              exists from: nat, to: nat ::
                from <= to <= |s| && path == s[from..to] && Parse(t) == Request(t[from..to])
  {
    var x := CutUp(s);
    var u, v := s[x.b..x.c], t[x.b..x.c];
    FitsRecased(s, t);
    SliceRecased(s, t, x.b, x.c);
    PathOfRecased(u, v);
    if Parse(s).Request? {
      var n := |Parse(s).path|;
      EndOfSlice(s, x.b, x.c, n);
      EndOfSlice(t, x.b, x.c, n);
    }
  }

  function RequestFor(path: seq<char>): seq<char> {
    "GET " + path + " HTTP/1.1"
  }

  /** Rendering the path of an accepted line and parsing again gives the same path. */
  lemma ParseAgain(s: seq<char>, path: seq<char>)
    requires NUL !in s && Parse(s) == Request(path)
    ensures Parse(RequestFor(path)) == Request(path)
  {
    PathIsWord(s[CutUp(s).b..CutUp(s).c], path);
    PathParses(path);
  }

  lemma PathIsWord(target: seq<char>, path: seq<char>)
    requires Word(target) && PathOf(target) == Request(path)
    ensures Word(path) && path[0] == '/'
  {
  }

  lemma PathParses(path: seq<char>)
    requires Word(path) && path[0] == '/'
    ensures Parse(RequestFor(path)) == Request(path)
  {
    var s, n := RequestFor(path), |path|;
    var x := Cuts(3, 4, 4 + n, 5 + n);
    assert s[5 + n..] == s[4 + n..][1..] == "HTTP/1.1";
    SplitIsCutUp(s, x);
    PathOfExactly(path, path);
    assert HasPath(path, 0, path);
  }

  // ----- in place

  const AT_NUL := (c: char) => c == NUL

  lemma ScanSlice(b: seq<char>, from: nat, to: nat, i: nat, stop: char -> bool)
    requires from + i <= to < |b| && stop(b[to])
    ensures Scan(b, from + i, stop) == from + Scan(b[from..to], i, stop)
  {
    var s := b[from..to];
    var k := Scan(s, i, stop);
    assert forall j :: from + i <= j < from + k ==> b[j] == s[j - from];
    assert k < |s| ==> b[from + k] == s[k];
  }

  /** strpbrk, strspn and strchr: walks from i to the first stop, at the latest the NUL at n. */
  method Walk(a: array<char>, i: nat, stop: char -> bool, ghost n: nat) returns (k: nat)
    requires i <= n < a.Length && a[n] == NUL && stop(NUL)
    ensures i <= k <= n && k == i + Until(a[i..n], stop)
    ensures a[k] == NUL || k < n
  {
    k := i;
    while !stop(a[k])
      invariant i <= k <= n && Scan(a[..], k, stop) == Scan(a[..], i, stop)
      decreases n - k
    {
      k := k + 1;
    }
    ScanSlice(a[..], i, n, 0, stop);
    assert a[..][i..n] == a[i..n];
  }

  /** strcasecmp of the string from i, which ends at n, with a literal. */
  method CompareIgnoringCase(a: array<char>, i: nat, literal: seq<char>, ghost n: nat) returns (same: bool)
    requires i <= n < a.Length && a[n] == NUL && NUL !in a[i..n]
    requires literal == "GET" || literal == "HTTP/1.1"
    ensures same == SameIgnoringCase(a[i..n], literal)
  {
    var j := 0;
    while j < |literal| && Lower(a[i + j]) == Lower(literal[j])
      invariant j <= |literal| && i + j <= n
      invariant forall m :: 0 <= m < j ==> Lower(a[i..n][m]) == Lower(literal[m])
    {
      assert i + j < n ==> a[i..n][j] == a[i + j];
      j := j + 1;
    }
    same := j == |literal| && a[i + j] == NUL;
    if i + j < n {
      assert a[i..n][j] == a[i + j] && a[i + j] in a[i..n];
    }
  }

  /** strncasecmp with http:// over 7 characters. */
  method StartsWithScheme(a: array<char>, i: nat, ghost n: nat) returns (same: bool)
    requires i <= n < a.Length && a[n] == NUL
    ensures same <==> i + 7 <= n && SameIgnoringCase(a[i..n][..7], "http://")
  {
    var scheme := "http://";
    var j := 0;
    while j < 7 && Lower(a[i + j]) == Lower(scheme[j])
      invariant j <= 7 && i + j <= n
      invariant forall m :: 0 <= m < j ==> Lower(a[i + m]) == Lower(scheme[m])
    {
      j := j + 1;
    }
    same := j == 7;
    if i + 7 <= n {
      assert forall m :: 0 <= m < 7 ==> a[i..n][..7][m] == a[i + m];
      assert j < 7 ==> a[i..n][..7][j] == a[i + j];
    }
  }

  /** The checks on the target, which starts at url and ends at the NUL at n. */
  method FindPath(a: array<char>, url: nat, ghost n: nat) returns (path: nat, ok: bool)
    requires url < n < a.Length && a[n] == NUL && NUL !in a[url..n]
    ensures url <= path <= n
    ensures PathOf(a[url..n]) == if ok then Request(a[path..n]) else Bad
  {
    path := url;
    ghost var target := a[url..n];
    assert target[0] == a[url];
    var scheme := StartsWithScheme(a, url, n);
    if scheme {
      path := Walk(a, url + 7, AT_SLASH, n);
      WalkFrom(target, 7, AT_SLASH);
      assert target[7..] == a[url + 7..n];
      assert path < n ==> target[path - url] == a[path] && target[path - url] in target;
      assert target[path - url..] == a[path..n];
    }
    ok := a[path] == '/';
  }

  datatype Code = NoRequest | BadRequest
  datatype CheckState = CheckRequestLine | CheckHeader

  /** The string the buffer holds. */
  ghost function Text(b: seq<char>): seq<char> {
    b[..Scan(b, 0, AT_NUL)]
  }

  /** The buffer afterwards: NUL behind the method, and behind the target if the method was GET. */
  ghost function Cut(b: seq<char>): (r: seq<char>)
    requires NUL in b
    ensures |r| == |b|
  {
    var s := Text(b);
    var x := CutUp(s);
    if x.a == |s| then b
    else if !SameIgnoringCase(s[..x.a], "GET") || x.c == |s| then b[x.a := NUL]
    else b[x.a := NUL][x.c := NUL]
  }

  lemma TextOf(b: seq<char>, n: nat)
    requires NUL in b && n == Scan(b, 0, AT_NUL)
    ensures n < |b| && b[n] == NUL && NUL !in b[..n]
  {
  }

  /** a is the first blank of s. */
  ghost predicate EndsMethod(s: seq<char>, a: int) {
    0 <= a < |s| && IsBlank(s[a]) && forall i :: 0 <= i < a ==> !IsBlank(s[i])
  }

  /** Blanks from a to b, then a word up to the blank at c. */
  ghost predicate GapAndWord(s: seq<char>, a: int, b: int, c: int) {
    && 0 <= a < b < c < |s| && IsBlank(s[c])
    && (forall i :: a <= i < b ==> IsBlank(s[i]))
    && (forall i :: b <= i < c ==> !IsBlank(s[i]))
  }

  /** c is the first blank behind the target, which follows the blanks that start at a. */
  ghost predicate EndsTarget(s: seq<char>, a: int, c: int) {
    exists b :: GapAndWord(s, a, b, c)
  }

  /** The bytes that become NUL: the first blank and, after a GET, the first blank behind the target. */
  ghost predicate Blanked(s: seq<char>, i: int) {
    || EndsMethod(s, i)
    || exists a :: EndsMethod(s, a) && Recased(s[..a], "GET") && EndsTarget(s, a, i)
  }

  lemma MethodEnd(s: seq<char>, i: int)
    requires NUL !in s
    ensures EndsMethod(s, i) <==> i == CutUp(s).a && i < |s|
  {
  }

  lemma CutEndsTarget(s: seq<char>)
    requires NUL !in s && CutUp(s).c < |s|
    ensures var x := CutUp(s); GapAndWord(s, x.a, x.b, x.c)
  {
    var x := CutUp(s);
    GapsAtCuts(s);
    assert forall j :: x.a <= j < x.b ==> s[j] == s[x.a..x.b][j - x.a];
    assert forall j :: x.b <= j <= x.c ==> s[j] == s[x.b..][j - x.b];
    assert s[x.c] in s;
  }

  lemma GapAndWordIs(s: seq<char>, b: nat, c: nat)
    requires NUL !in s && GapAndWord(s, CutUp(s).a, b, c)
    ensures c == CutUp(s).c
  {
    assert forall j :: 0 <= j < c - b ==> s[b..c][j] == s[b + j] && s[b + j] in s;
    ScanPastBlanks(s, CutUp(s).a, b);
    ScanToBlank(s, b, c);
  }

  lemma TargetEnd(s: seq<char>, i: int)
    requires NUL !in s
    ensures EndsTarget(s, CutUp(s).a, i) <==> i == CutUp(s).c && i < |s|
  {
    if CutUp(s).c < |s| {
      CutEndsTarget(s);
    }
    if b :| GapAndWord(s, CutUp(s).a, b, i) {
      GapAndWordIs(s, b, i);
    }
  }

  lemma BlankedExactly(s: seq<char>, i: int)
    requires NUL !in s
    ensures var x := CutUp(s);
            Blanked(s, i) <==>
            i < |s| && (i == x.a || (x.a < |s| && SameIgnoringCase(s[..x.a], "GET") && i == x.c))
  {
    var a := CutUp(s).a;
    MethodEnd(s, i);
    if a < |s| {
      MethodEnd(s, a);
      TargetEnd(s, i);
      IgnoringCaseExactly(s[..a], "GET");
    }
    if b :| EndsMethod(s, b) && Recased(s[..b], "GET") && EndsTarget(s, b, i) {
      MethodEnd(s, b);
    }
  }

  /** What the buffer holds afterwards, byte by byte; nothing from the NUL at n on changes. */
  lemma CutExactly(b: seq<char>, n: nat)
    requires n < |b| && b[n] == NUL && NUL !in b[..n]
    ensures Text(b) == b[..n]
    ensures forall i :: 0 <= i < |b| ==> Cut(b)[i] == if Blanked(b[..n], i) then NUL else b[i]
  {
    TextIs(b, n);
    forall i | 0 <= i < |b| ensures Cut(b)[i] == if Blanked(b[..n], i) then NUL else b[i] {
      BlankedExactly(b[..n], i);
    }
  }

  lemma TextIs(b: seq<char>, n: nat)
    requires n < |b| && b[n] == NUL && NUL !in b[..n]
    ensures Text(b) == b[..n]
  {
    var k := Scan(b, 0, AT_NUL);
    assert forall i :: 0 <= i < n ==> b[i] in b[..n];
  }

  /** The first pointer step: the method is cut off and checked. */
  method CutMethod(temp: array<char>, ghost n: nat) returns (found: bool, get: bool, url: nat)
    requires n < temp.Length && temp[n] == NUL && NUL !in temp[..n]
    modifies temp
    ensures var s := old(temp[..n]);
            && url == Until(s, AT_BLANK) && (found <==> url < n)
            && temp[..] == (if found then old(temp[..])[url := NUL] else old(temp[..]))
            && (found ==> (get <==> SameIgnoringCase(s[..url], "GET")))
  {
    ghost var s := temp[..n];
    assert temp[0..n] == s;
    url := Walk(temp, 0, AT_BLANK, n);
    found, get := temp[url] != NUL, false;
    assert url < n ==> s[url] == temp[url] && s[url] in s;
    if found {
      temp[url] := NUL;
      assert temp[0..url] == s[..url];
      get := CompareIgnoringCase(temp, 0, "GET", url);
    }
  }

  /** The second: the end of the target, which starts at url, is found and cut off. */
  method CutTarget(temp: array<char>, url: nat, ghost n: nat) returns (found: bool, version: nat)
    requires url <= n < temp.Length && temp[n] == NUL && NUL !in temp[url..n]
    modifies temp
    ensures var u := old(temp[url..n]);
            && version == url + Until(u, AT_BLANK) && (found <==> version < n)
            && temp[..] == (if found then old(temp[..])[version := NUL] else old(temp[..]))
            && (found ==> temp[url..version] == u[..version - url] && temp[version + 1..n] == u[version - url + 1..])
  {
    ghost var u := temp[url..n];
    version := Walk(temp, url, AT_BLANK, n);
    found := temp[version] != NUL;
    assert version < n ==> u[version - url] == temp[version] && u[version - url] in u;
    if found {
      temp[version] := NUL;
    }
  }

  /** What follows the target must be blanks and the version. */
  method CheckVersion(temp: array<char>, from: nat, ghost n: nat) returns (ok: bool)
    requires from <= n < temp.Length && temp[n] == NUL && NUL !in temp[from..n]
    ensures ok <==> SameIgnoringCase(temp[from + Until(temp[from..n], PAST_BLANKS)..n], "HTTP/1.1")
  {
    var rest := Walk(temp, from, PAST_BLANKS, n);
    assert forall i :: rest <= i < n ==> temp[i] == temp[from..n][i - from];
    ok := CompareIgnoringCase(temp, rest, "HTTP/1.1", n);
  }

  /** The version of s starts at d, behind the blanks that follow the byte at version. */
  method Supported(temp: array<char>, version: nat, ghost d: nat, ghost s: seq<char>) returns (ok: bool)
    requires version < |s| < temp.Length && temp[|s|] == NUL && NUL !in s
    requires d == version + 1 + Until(s[version + 1..], PAST_BLANKS)
    requires temp[version + 1..|s|] == s[version + 1..]
    ensures ok <==> SameIgnoringCase(s[d..], "HTTP/1.1")
  {
    assert temp[d..|s|] == temp[version + 1..|s|][d - version - 1..] == s[d..];
    ok := CheckVersion(temp, version + 1, |s|);
  }

  /** What the target from url to version comes to. */
  method Target(temp: array<char>, url: nat, version: nat) returns (printed: Verdict)
    requires url < version < temp.Length && temp[version] == NUL && NUL !in temp[url..version]
    ensures printed == PathOf(temp[url..version])
  {
    var path, ok := FindPath(temp, url, version);
    printed := if ok then Request(temp[path..version]) else Bad;
  }

  /** The tests behind the method, once the target from url to version has been cut off; the version starts at d. */
  method Judge(temp: array<char>, url: nat, version: nat, ghost d: nat, ghost s: seq<char>) returns (printed: Verdict)
    requires url < version < |s| < temp.Length && temp[|s|] == NUL && NUL !in s
    requires d == version + 1 + Until(s[version + 1..], PAST_BLANKS) && temp[version] == NUL
    requires temp[url..version] == s[url..version] && temp[version + 1..|s|] == s[version + 1..]
    ensures printed == if SameIgnoringCase(s[d..], "HTTP/1.1") then PathOf(s[url..version]) else Bad
  {
    printed := Bad;
    var supported := Supported(temp, version, d, s);
    if supported {
      printed := Target(temp, url, version);
    }
  }

  /** Everything from the target on. */
  method ParseRest(temp: array<char>, url: nat, ghost n: nat, ghost s: seq<char>) returns (printed: Verdict)
    requires |s| == n < temp.Length && temp[n] == NUL && NUL !in s
    requires url == CutUp(s).b && temp[url..n] == s[url..]
    modifies temp
    ensures var x := CutUp(s);
            && printed == (if x.c < |s| && SameIgnoringCase(s[x.d..], "HTTP/1.1") then PathOf(s[x.b..x.c]) else Bad)
            && temp[..] == (if x.c < n then old(temp[..])[x.c := NUL] else old(temp[..]))
  {
    printed := Bad;
    var found, version := CutTarget(temp, url, n);
    if found {
      assert s[url] == s[url..][0] && !Blank(s[url]) && s[url] in s;
      assert temp[url..version] == s[url..][..version - url] == s[url..version];
      assert temp[version + 1..n] == s[url..][version - url + 1..] == s[version + 1..];
      assert temp[version] == temp[..][version] && temp[n] == temp[..][n];
      printed := Judge(temp, url, version, CutUp(s).d, s);
    }
  }

  /** Everything behind the blank that ends the method. */
  method ParseBehindMethod(temp: array<char>, blank: nat, ghost n: nat, ghost s: seq<char>) returns (printed: Verdict)
    requires blank < |s| == n < temp.Length && temp[n] == NUL && NUL !in s
    requires blank == CutUp(s).a && temp[blank + 1..n] == s[blank + 1..]
    modifies temp
    ensures var x := CutUp(s);
            && printed == (if x.c < |s| && SameIgnoringCase(s[x.d..], "HTTP/1.1") then PathOf(s[x.b..x.c]) else Bad)
            && temp[..] == (if x.c < n then old(temp[..])[x.c := NUL] else old(temp[..]))
  {
    var url := Walk(temp, blank + 1, PAST_BLANKS, n);
    assert temp[url..n] == temp[blank + 1..n][url - blank - 1..] == s[url..];
    printed := ParseRest(temp, url, n, s);
  }

  method ParseRequestLine(temp: array<char>, checkState: CheckState)
    returns (code: Code, checkState': CheckState, printed: seq<char>)
    requires NUL in temp[..]
    modifies temp
    ensures temp[..] == Cut(old(temp[..]))
    ensures match Parse(Text(old(temp[..])))
            case Bad => code == BadRequest && checkState' == checkState
            case Request(path) => code == NoRequest && checkState' == CheckHeader && printed == path
  {
    code, checkState', printed := BadRequest, checkState, [];
    ghost var b, n := temp[..], Scan(temp[..], 0, AT_NUL);
    ghost var s := b[..n];
    TextOf(b, n);
    assert temp[..n] == s;
    var found, get, blank := CutMethod(temp, n);
    if !found || !get {
      return;
    }
    assert temp[blank + 1..n] == s[blank + 1..] && temp[n] == temp[..][n];
    var verdict := ParseBehindMethod(temp, blank, n, s);
    if verdict.Request? {
      code, checkState', printed := NoRequest, CheckHeader, verdict.path;
    }
  }
}
