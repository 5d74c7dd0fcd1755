/**
 * The regular expressions of `src/vilain_utils.py`, each as the scanner its
 * pattern amounts to under Python's `re` semantics: the leftmost position at
 * which the pattern matches, lazy `.*?` taking the shortest extent that lets
 * the rest match, greedy `\s*` and `\w+` the longest, and `.` stopping at a
 * newline unless the pattern is compiled with DOTALL. `findall` restarts at
 * the end of each match; none of the patterns can match the empty string.
 */
module PddlPatterns {
  import opened Wrappers
  import opened PyText
  import opened PyFind
  import opened PddlScan

  // ---------------------------------------------------------------------------
  // Comments: re.sub(r"(;.*?$)", "", text, flags=re.MULTILINE)
  // ---------------------------------------------------------------------------

  /**
   * Each `;` and the rest of its line are removed (the lazy `.*?` stops at the
   * first `$`, which with MULTILINE is the position before a newline or the end);
   * the newline itself stays.
   */
  function StripComments(s: string): (r: string)
    decreases |s|
    ensures ';' !in r && |r| <= |s|
  {
    if s == [] then []
    else if s[0] == ';' then StripComments(s[LineEnd(s, 0)..])
    else [s[0]] + StripComments(s[1..])
  }

  /** Text without `;` is kept as it is. */
  lemma {:induction false} StripCommentsNone(s: string)
    requires ';' !in s
    ensures StripComments(s) == s
    decreases |s|
  {
    if s != [] {
      assert s == [s[0]] + s[1..];
      StripCommentsNone(s[1..]);
    }
  }

  /** Stripping comments twice is stripping them once. */
  lemma StripCommentsIdempotent(s: string)
    ensures StripComments(StripComments(s)) == StripComments(s)
  {
    StripCommentsNone(StripComments(s));
  }

  /** Text before the first `;` is kept, whatever follows. */
  lemma {:induction false} StripCommentsPrefix(a: string, b: string)
    requires ';' !in a
    ensures StripComments(a + b) == a + StripComments(b)
    decreases |a|
  {
    if a != [] {
      assert (a + b)[0] == a[0];
      assert (a + b)[1..] == a[1..] + b;
      StripCommentsPrefix(a[1..], b);
      assert a == [a[0]] + a[1..];
    } else {
      assert a + b == b;
    }
  }

  /** A comment runs to the end of its line: it is removed and the newline is kept. */
  lemma StripCommentsLine(b: string, c: string)
    requires '\n' !in b
    ensures StripComments(";" + b + "\n" + c) == "\n" + StripComments(c)
  {
    var s := ";" + b + "\n" + c;
    assert forall k :: 0 <= k < |b| ==> s[k + 1] == b[k];
    assert s[|b| + 1] == '\n';
    assert LineEnd(s, 0) == |b| + 1;
    var t := s[|b| + 1..];
    assert t == "\n" + c;
    assert t[0] == '\n' && t[1..] == c;
  }

  // ---------------------------------------------------------------------------
  // Groups: re.findall(r"(\(.*?\))", text) with MULTILINE (no DOTALL)
  // ---------------------------------------------------------------------------

  /** The first `)` at or after `i` on the line of `i`: where the lazy `.*?\)` stops. */
  function CloseOnLine(s: string, i: nat): (r: Option<nat>)
    requires i <= |s|
    decreases |s| - i
    ensures r.Some? ==> i <= r.value < |s| && s[r.value] == ')'
    ensures r.Some? ==> forall k :: i <= k < r.value ==> s[k] != ')' && s[k] != '\n'
    ensures r.None? ==> forall k :: i <= k < LineEnd(s, i) ==> s[k] != ')'
  {
    if i == |s| || s[i] == '\n' then None
    else if s[i] == ')' then Some(i)
    else CloseOnLine(s, i + 1)
  }

  /** A match of `\(.*?\)`: `(`, then anything but `)` and newline, then `)`. */
  predicate SimpleGroup(g: string) {
    && |g| >= 2 && g[0] == '(' && g[|g| - 1] == ')'
    && forall k :: 1 <= k < |g| - 1 ==> g[k] != ')' && g[k] != '\n'
  }

  /** The matches of `\(.*?\)`, left to right. */
  function ParenGroups(s: string): (r: seq<string>)
    decreases |s|
    ensures forall k :: 0 <= k < |r| ==> SimpleGroup(r[k])
  {
    if s == [] then []
    else if s[0] == '(' && CloseOnLine(s, 1).Some? then
      var j := CloseOnLine(s, 1).value;
      [s[..j + 1]] + ParenGroups(s[j + 1..])
    else ParenGroups(s[1..])
  }

  /** A group followed by text: the group is matched first, then the scan goes on after it. */
  lemma GroupFirst(g: string, rest: string)
    requires SimpleGroup(g)
    ensures var s := g + rest; CloseOnLine(s, 1) == Some(|g| - 1)
    ensures ParenGroups(g + rest) == [g] + ParenGroups(rest)
  {
    var s := g + rest;
    assert forall k :: 0 <= k < |g| ==> s[k] == g[k];
    assert CloseOnLine(s, 1) == Some(|g| - 1);
    assert s[..|g|] == g;
    assert s[|g|..] == rest;
  }

  /** Matching the groups of space-separated groups gives them back. */
  lemma {:induction false} ParenGroupsJoin(gs: seq<string>)
    requires forall k :: 0 <= k < |gs| ==> SimpleGroup(gs[k])
    ensures ParenGroups(Join(" ", gs)) == gs
    decreases |gs|
  {
    if |gs| == 1 {
      GroupFirst(gs[0], "");
      assert gs[0] + "" == gs[0];
    } else if |gs| > 1 {
      var rest := Join(" ", gs[1..]);
      assert Join(" ", gs) == gs[0] + (" " + rest);
      GroupFirst(gs[0], " " + rest);
      assert (" " + rest)[1..] == rest;
      ParenGroupsJoin(gs[1..]);
    }
  }

  // ---------------------------------------------------------------------------
  // Sections: re.findall(...)[0] for the patterns that open with a marker
  // ---------------------------------------------------------------------------

  /**
   * The four patterns that cut a section out of a whole domain or problem text,
   * all compiled with DOTALL:
   *   `(\(:init.*?\))\s*\(:goal`              on the comment-free problem,
   *   `(\(:goal.*?\)\s*\)\s*\))\s*\)`       on the comment-free problem,
   *   `(\(:objects.*?\))`                     on the problem,
   *   `(\(:predicates.*?\s\))`                on the domain.
   */
  datatype SectionPattern = InitPattern | GoalPattern | ObjectsPattern | PredicatesPattern

  function SectionMarker(pt: SectionPattern): (m: string)
    ensures |m| > 0
  {
    match pt
    case InitPattern => "(:init"
    case GoalPattern => "(:goal"
    case ObjectsPattern => "(:objects"
    case PredicatesPattern => "(:predicates"
  }

  /**
   * After the `)` at `j`: `\s*\)\s*\)` (the end of the captured group, returned)
   * and then `\s*\)`.
   */
  function GoalTail(s: string, j: nat): (r: Option<nat>)
    requires j < |s|
    ensures r.Some? ==> j < r.value < |s|
  {
    var k1 := SkipSpaces(s, j + 1);
    if k1 == |s| || s[k1] != ')' then None
    else
      var k2 := SkipSpaces(s, k1 + 1);
      if k2 == |s| || s[k2] != ')' then None
      else
        var k3 := SkipSpaces(s, k2 + 1);
        if k3 == |s| || s[k3] != ')' then None
        else Some(k2 + 1)
  }

  /** The part of the pattern after the lazy `.*?` matches from index `j` on. */
  predicate ClosesAt(pt: SectionPattern, s: string, j: nat)
    requires j < |s|
  {
    match pt
    case InitPattern => s[j] == ')' && OccursAt(s, "(:goal", SkipSpaces(s, j + 1))
    case GoalPattern => s[j] == ')' && GoalTail(s, j).Some?
    case ObjectsPattern => s[j] == ')'
    case PredicatesPattern => IsSpace(s[j]) && j + 1 < |s| && s[j + 1] == ')'
  }

  /** Where the captured group ends when the tail matches at `j`. */
  function GroupEnd(pt: SectionPattern, s: string, j: nat): (e: nat)
    requires j < |s| && ClosesAt(pt, s, j)
    ensures j < e <= |s|
  {
    match pt
    case InitPattern => j + 1
    case GoalPattern => GoalTail(s, j).value
    case ObjectsPattern => j + 1
    case PredicatesPattern => j + 2
  }

  /** The lazy `.*?` under DOTALL: the smallest `k >= j` at which the tail matches. */
  function FirstClose(pt: SectionPattern, s: string, j: nat): (r: Option<nat>)
    requires j <= |s|
    decreases |s| - j
    ensures r.Some? ==> j <= r.value < |s| && ClosesAt(pt, s, r.value)
    ensures forall k :: j <= k < |s| && (r.None? || k < r.value) ==> !ClosesAt(pt, s, k)
  {
    if j == |s| then None
    else if ClosesAt(pt, s, j) then Some(j)
    else FirstClose(pt, s, j + 1)
  }

  /**
   * `pattern.findall(s)[0]`: the group of the first match, or the IndexError
   * raised when there is none. Only the first occurrence of the marker needs to
   * be tried (`SectionLeftmost`).
   */
  function Section(pt: SectionPattern, s: string): Result<string, ParseError> {
    var m := SectionMarker(pt);
    match Find(s, m, 0)
    case None => Failure(NotFound(m))
    case Some(p) =>
      match FirstClose(pt, s, p + |m|)
      case None => Failure(NotFound(m))
      case Some(j) => Success(s[p..GroupEnd(pt, s, j)])
  }

  /** The pattern matches with the marker at `p` and its lazy part ending at `j`. */
  predicate MatchAt(pt: SectionPattern, s: string, p: nat, j: nat) {
    && OccursAt(s, SectionMarker(pt), p)
    && p + |SectionMarker(pt)| <= j < |s|
    && ClosesAt(pt, s, j)
  }

  /** Any match starts at or after the first marker and its lazy part ends at or after the first close. */
  lemma MatchAfterFirst(pt: SectionPattern, s: string, p: nat, j: nat)
    requires MatchAt(pt, s, p, j)
    ensures var m := SectionMarker(pt); Find(s, m, 0).Some? && Find(s, m, 0).value <= p
    ensures var m := SectionMarker(pt);
            var f := Find(s, m, 0).value;
            FirstClose(pt, s, f + |m|).Some? && FirstClose(pt, s, f + |m|).value <= j
  {
  }

  /**
   * `Section` is the regular expression's first match: it fails exactly when no
   * match exists, and otherwise returns the group of the match with the leftmost
   * start and, among those, the shortest lazy part.
   */
  lemma SectionLeftmost(pt: SectionPattern, s: string)
    ensures Section(pt, s).Success? <==> exists p: nat, j: nat :: MatchAt(pt, s, p, j)
    ensures Section(pt, s).Success? ==>
      exists p: nat, j: nat ::
        && MatchAt(pt, s, p, j)
        && Section(pt, s).value == s[p..GroupEnd(pt, s, j)]
        && forall p': nat, j': nat :: MatchAt(pt, s, p', j') ==> p < p' || (p == p' && j <= j')
  {
    forall p: nat, j: nat | MatchAt(pt, s, p, j)
      ensures Section(pt, s).Success?
    {
      MatchAfterFirst(pt, s, p, j);
    }
    if Section(pt, s).Success? {
      var p, j := SectionMatch(pt, s);
    }
  }

  /** The match `Section` picks, and no match starts earlier or, at the same start, closes earlier. */
  lemma SectionMatch(pt: SectionPattern, s: string) returns (p: nat, j: nat)
    requires Section(pt, s).Success?
    ensures MatchAt(pt, s, p, j) && Section(pt, s).value == s[p..GroupEnd(pt, s, j)]
    ensures forall p': nat, j': nat :: MatchAt(pt, s, p', j') ==> p < p' || (p == p' && j <= j')
  {
    var m := SectionMarker(pt);
    p := Find(s, m, 0).value;
    j := FirstClose(pt, s, p + |m|).value;
    forall p': nat, j': nat | MatchAt(pt, s, p', j')
      ensures p < p' || (p == p' && j <= j')
    {
      MatchAfterFirst(pt, s, p', j');
    }
  }

  // ---------------------------------------------------------------------------
  // Predicates with comments: re.findall(r"(\(.*?\))((?:\s*;\s*.*)?)", text)
  // with MULTILINE
  // ---------------------------------------------------------------------------

  /**
   * The optional `(?:\s*;\s*.*)?` after a group that closes just before `i`:
   * when a `;` follows after whitespace, the match runs to the end of the line on
   * which the text after the `;` (and after any whitespace, newlines included)
   * resumes; otherwise it is empty.
   */
  function CommentTail(w: string, i: nat): (e: nat)
    requires i <= |w|
    ensures i <= e <= |w|
    ensures e > i <==> SkipSpaces(w, i) < |w| && w[SkipSpaces(w, i)] == ';'
  {
    var k := SkipSpaces(w, i);
    if k < |w| && w[k] == ';' then LineEnd(w, SkipSpaces(w, k + 1)) else i
  }

  /** The comment part of a match: empty, or whitespace, `;` and the rest. */
  predicate CommentText(c: string) {
    c == [] || (SkipSpaces(c, 0) < |c| && c[SkipSpaces(c, 0)] == ';')
  }

  lemma CommentTailText(w: string, i: nat)
    requires i <= |w|
    ensures CommentText(w[i..CommentTail(w, i)])
  {
    var c := w[i..CommentTail(w, i)];
    if c != [] {
      var k := SkipSpaces(w, i);
      assert forall t :: 0 <= t < |c| ==> c[t] == w[i + t];
      SkipSpacesShift(w, i, CommentTail(w, i), 0);
      assert SkipSpaces(c, 0) == k - i;
    }
  }

  /** Skipping whitespace in a slice is skipping it in the whole text, while the slice lasts. */
  lemma {:induction false} SkipSpacesShift(w: string, i: nat, e: nat, t: nat)
    requires i <= e <= |w| && t <= e - i
    requires SkipSpaces(w, i + t) < e
    ensures SkipSpaces(w[i..e], t) == SkipSpaces(w, i + t) - i
    decreases e - i - t
  {
    var c := w[i..e];
    if t < |c| && IsSpace(c[t]) {
      SkipSpacesShift(w, i, e, t + 1);
    }
  }

  /** The (group, comment) pairs of the predicate pattern, left to right. */
  function PredicateMatches(w: string): (r: seq<(string, string)>)
    decreases |w|
    ensures forall k :: 0 <= k < |r| ==> SimpleGroup(r[k].0)
  {
    if w == [] then []
    else if w[0] == '(' && CloseOnLine(w, 1).Some? then
      var j := CloseOnLine(w, 1).value;
      var e := CommentTail(w, j + 1);
      [(w[..j + 1], w[j + 1..e])] + PredicateMatches(w[e..])
    else PredicateMatches(w[1..])
  }

  /** Every comment of a match is empty or begins, after whitespace, with the `;` it keeps. */
  lemma {:induction false} PredicateCommentsKeepSemicolon(w: string)
    ensures forall k :: 0 <= k < |PredicateMatches(w)| ==> CommentText(PredicateMatches(w)[k].1)
    decreases |w|
  {
    if w == [] {
    } else if w[0] == '(' && CloseOnLine(w, 1).Some? {
      var j := CloseOnLine(w, 1).value;
      var e := CommentTail(w, j + 1);
      CommentTailText(w, j + 1);
      PredicateCommentsKeepSemicolon(w[e..]);
    } else {
      PredicateCommentsKeepSemicolon(w[1..]);
    }
  }

  /** A comment as a domain writes it after a predicate: empty, or ` ; ` and text on the same line. */
  predicate LineComment(c: string) {
    c == [] || (|c| >= 4 && c[..3] == " ; " && !IsSpace(c[3]) && '\n' !in c)
  }

  /** One predicate line: its group and comment are matched, then the scan goes on after it. */
  lemma PredicateLine(g: string, c: string, rest: string)
    requires SimpleGroup(g) && LineComment(c)
    requires rest == [] || (|rest| >= 2 && rest[0] == '\n' && rest[1] == '(')
    ensures PredicateMatches(g + c + rest) == [(g, c)] + PredicateMatches(rest)
  {
    var w := g + c + rest;
    var e := |g| + |c|;
    assert w[..|g|] == g;
    assert w[|g|..e] == c;
    assert w[e..] == rest;
    GroupAt(w, g);
    CommentTailAt(w, |g|, c);
    assert PredicateMatches(w) == [(w[..|g|], w[|g|..e])] + PredicateMatches(w[e..]);
  }

  /** A text that starts with a group: the lazy `.*?\)` stops at the group's `)`. */
  lemma GroupAt(w: string, g: string)
    requires SimpleGroup(g) && |g| <= |w| && w[..|g|] == g
    ensures CloseOnLine(w, 1) == Some(|g| - 1)
  {
    assert forall k :: 0 <= k < |g| ==> w[k] == w[..|g|][k];
  }

  /** A line comment at `i`, followed by the end or by a newline and another group, is exactly the comment part. */
  lemma CommentTailAt(w: string, i: nat, c: string)
    requires LineComment(c) && i + |c| <= |w| && w[i..i + |c|] == c
    requires var e := i + |c|; e == |w| || (e + 1 < |w| && w[e] == '\n' && w[e + 1] == '(')
    ensures CommentTail(w, i) == i + |c|
  {
    var e := i + |c|;
    assert forall k :: 0 <= k < |c| ==> c[k] == w[i + k];
    if c == [] {
      if e < |w| {
        assert SkipSpaces(w, i) == i + 1;
      }
    } else {
      assert c[0] == ' ' && c[1] == ';' && c[2] == ' ' by {
        assert c[..3][0] == c[0] && c[..3][1] == c[1] && c[..3][2] == c[2];
      }
      CommentLineEnd(w, i, c);
    }
  }

  lemma CommentLineEnd(w: string, i: nat, c: string)
    requires |c| >= 4 && c[0] == ' ' && c[1] == ';' && c[2] == ' ' && !IsSpace(c[3]) && '\n' !in c
    requires i + |c| <= |w| && forall k :: 0 <= k < |c| ==> w[i + k] == c[k]
    requires i + |c| == |w| || w[i + |c|] == '\n'
    ensures SkipSpaces(w, i) == i + 1 && SkipSpaces(w, i + 2) == i + 3
    ensures LineEnd(w, i + 3) == i + |c|
  {
    assert forall k :: i + 3 <= k < i + |c| ==> w[k] == c[k - i] && c[k - i] != '\n';
  }

  /** The lines `group + comment` of a list of pairs. */
  function PredicateLines(ps: seq<(string, string)>): (ls: seq<string>)
    ensures |ls| == |ps|
    ensures forall k :: 0 <= k < |ps| ==> ls[k] == ps[k].0 + ps[k].1
  {
    seq(|ps|, k requires 0 <= k < |ps| => ps[k].0 + ps[k].1)
  }

  /** Predicates written one per line, each with an optional comment, are matched back exactly. */
  lemma {:induction false} PredicateMatchesLines(ps: seq<(string, string)>)
    requires forall k :: 0 <= k < |ps| ==> SimpleGroup(ps[k].0) && LineComment(ps[k].1)
    ensures PredicateMatches(Join("\n", PredicateLines(ps))) == ps
    decreases |ps|
  {
    if |ps| == 1 {
      PredicateLine(ps[0].0, ps[0].1, "");
      assert PredicateLines(ps)[0] + "" == PredicateLines(ps)[0];
    } else if |ps| > 1 {
      PredicateLinesStep(ps);
      PredicateMatchesLines(ps[1..]);
      assert [ps[0]] + ps[1..] == ps;
    }
  }

  /** The first line is matched as its pair, and the scan goes on with the remaining lines. */
  lemma PredicateLinesStep(ps: seq<(string, string)>)
    requires |ps| > 1
    requires SimpleGroup(ps[0].0) && LineComment(ps[0].1) && SimpleGroup(ps[1].0)
    ensures PredicateMatches(Join("\n", PredicateLines(ps))) == [ps[0]] + PredicateMatches(Join("\n", PredicateLines(ps[1..])))
  {
    var ls := PredicateLines(ps);
    var tail := Join("\n", ls[1..]);
    assert ls[1..] == PredicateLines(ps[1..]);
    JoinStartsWith(ls[1..], "\n", ps[1].0);
    var rest := "\n" + tail;
    assert rest[1] == '(';
    assert Join("\n", ls) == ps[0].0 + ps[0].1 + rest;
    PredicateLine(ps[0].0, ps[0].1, rest);
    assert rest[1..] == tail;
  }

  /** A join starts with what its first piece starts with. */
  lemma JoinStartsWith(xs: seq<string>, sep: string, g: string)
    requires |xs| > 0 && |g| > 0 && g <= xs[0]
    ensures |Join(sep, xs)| > 0 && Join(sep, xs)[0] == g[0]
  {
    if |xs| > 1 {
      assert Join(sep, xs) == xs[0] + sep + Join(sep, xs[1..]);
    }
  }

  // ---------------------------------------------------------------------------
  // Parameters: re.findall(r":parameters\s*(\(.*?\))", action)[0] with MULTILINE
  // ---------------------------------------------------------------------------

  const ParametersKey: string := ":parameters"

  /** The pattern matches with `:parameters` at `p`: a `(` after whitespace, closed on its line. */
  predicate ParamMatchAt(a: string, p: nat) {
    && OccursAt(a, ParametersKey, p)
    && var q := SkipSpaces(a, p + |ParametersKey|);
       q < |a| && a[q] == '(' && CloseOnLine(a, q + 1).Some?
  }

  /** The captured group of the match at `p`. */
  function ParamGroup(a: string, p: nat): (g: string)
    requires ParamMatchAt(a, p)
    ensures SimpleGroup(g)
  {
    var q := SkipSpaces(a, p + |ParametersKey|);
    a[q..CloseOnLine(a, q + 1).value + 1]
  }

  /**
   * Where the leftmost match at or after `from` has its `:parameters`: each
   * occurrence of the key is tried in turn, since one whose group does not close
   * on its line does not match.
   */
  function ParamMatchFrom(a: string, from: nat): (r: Option<nat>)
    requires from <= |a|
    decreases |a| - from
    ensures r.Some? ==> from <= r.value && ParamMatchAt(a, r.value)
    ensures forall p :: from <= p && (r.None? || p < r.value) ==> !ParamMatchAt(a, p)
  {
    match Find(a, ParametersKey, from)
    case None => None
    case Some(p) => if ParamMatchAt(a, p) then Some(p) else ParamMatchFrom(a, p + 1)
  }

  /** The parameter list of an action: the group of the first match, or the IndexError of `findall(...)[0]`. */
  function Parameters(a: string): (r: Result<string, ParseError>)
    ensures r.Success? ==> SimpleGroup(r.value)
  {
    match ParamMatchFrom(a, 0)
    case None => Failure(NotFound(ParametersKey))
    case Some(p) => Success(ParamGroup(a, p))
  }

  // ---------------------------------------------------------------------------
  // Object groups: re.findall(r"\s*(?P<objs>.*?)\s*-\s*(?P<type>\w+)\s*", objects)
  // with MULTILINE
  // ---------------------------------------------------------------------------

  /**
   * `\s*-\s*(\w+)` from `e`: the span of the type word. Greedy `\s*` and `\w+`
   * never need to give anything back here: a shorter `\s*` leaves whitespace
   * where `-` or a word character is needed, and the `\s*` that ends the pattern
   * accepts whatever follows the longest word.
   */
  function TypeTail(t: string, e: nat): (r: Option<(nat, nat)>)
    requires e <= |t|
    ensures r.Some? ==> e < r.value.0 < r.value.1 <= |t|
    ensures r.Some? ==> forall k :: r.value.0 <= k < r.value.1 ==> IsWordChar(t[k])
  {
    var k := SkipSpaces(t, e);
    if k < |t| && t[k] == '-' then
      var b := SkipSpaces(t, k + 1);
      var w := WordEnd(t, b);
      if w > b then Some((b, w)) else None
    else None
  }

  /** The lazy `.*?` of `objs` from `e`: the first end at which `TypeTail` matches, without crossing a newline. */
  function LazyObjs(t: string, e: nat): (r: Option<nat>)
    requires e <= |t|
    decreases |t| - e
    ensures r.Some? ==> e <= r.value <= |t| && TypeTail(t, r.value).Some?
    ensures r.Some? ==> forall k :: e <= k < r.value ==> t[k] != '\n' && TypeTail(t, k).None?
    ensures r.None? ==> forall k :: e <= k <= LineEnd(t, e) ==> TypeTail(t, k).None?
  {
    if TypeTail(t, e).Some? then Some(e)
    else if e == |t| || t[e] == '\n' then None
    else
      assert LineEnd(t, e) == LineEnd(t, e + 1);
      LazyObjs(t, e + 1)
  }

  /** A word: what `\w+` matches. */
  predicate IsWord(w: string) {
    |w| > 0 && forall k :: 0 <= k < |w| ==> IsWordChar(w[k])
  }

  /**
   * The (objs, type) pairs, left to right. A match attempt skips whitespace
   * first; giving some of it back to `objs` never helps, because the tail would
   * have to match at the same place.
   */
  function ObjectGroups(t: string): (r: seq<(string, string)>)
    decreases |t|
    ensures forall k :: 0 <= k < |r| ==> '\n' !in r[k].0 && IsWord(r[k].1)
  {
    var a := SkipSpaces(t, 0);
    match LazyObjs(t, a)
    case None => if t == [] then [] else ObjectGroups(t[1..])
    case Some(e) =>
      var (b, w) := TypeTail(t, e).value;
      NoNewlineSlice(t, a, e);
      WordSlice(t, b, w);
      [(t[a..e], t[b..w])] + ObjectGroups(t[SkipSpaces(t, w)..])
  }

  lemma NoNewlineSlice(t: string, a: nat, e: nat)
    requires a <= e <= |t| && forall k :: a <= k < e ==> t[k] != '\n'
    ensures '\n' !in t[a..e]
  {
    assert forall k :: 0 <= k < e - a ==> t[a..e][k] == t[a + k];
  }

  lemma WordSlice(t: string, b: nat, w: nat)
    requires b < w <= |t| && forall k :: b <= k < w ==> IsWordChar(t[k])
    ensures IsWord(t[b..w])
  {
    assert forall k :: 0 <= k < w - b ==> t[b..w][k] == t[b + k];
  }

  // ---------------------------------------------------------------------------
  // Object declarations read back
  // ---------------------------------------------------------------------------

  /** A declaration line `name1 name2 ... - type`. */
  function DeclarationLine(d: (seq<string>, string)): string {
    Join(" ", d.0) + " - " + d.1
  }

  /** Names that the object pattern reads back as written: tokens without `-`, and a word as the type. */
  predicate GoodDeclaration(d: (seq<string>, string)) {
    && |d.0| > 0
    && (forall k :: 0 <= k < |d.0| ==> IsToken(d.0[k]) && '-' !in d.0[k])
    && IsWord(d.1)
  }

  function DeclarationLines(ds: seq<(seq<string>, string)>): (r: seq<string>)
    ensures |r| == |ds|
    ensures forall k :: 0 <= k < |ds| ==> r[k] == DeclarationLine(ds[k])
  {
    seq(|ds|, k requires 0 <= k < |ds| => DeclarationLine(ds[k]))
  }

  /** The (objs, type) pair each declaration should give. */
  function DeclaredGroups(ds: seq<(seq<string>, string)>): (r: seq<(string, string)>)
    ensures |r| == |ds|
    ensures forall k :: 0 <= k < |ds| ==> r[k] == (Join(" ", ds[k].0), ds[k].1)
  {
    seq(|ds|, k requires 0 <= k < |ds| => (Join(" ", ds[k].0), ds[k].1))
  }

  /** The names joined by spaces: no `-` and no newline, and no whitespace at either end. */
  lemma {:induction false} JoinedNames(names: seq<string>)
    requires |names| > 0 && forall k :: 0 <= k < |names| ==> IsToken(names[k]) && '-' !in names[k]
    ensures var n := Join(" ", names);
            && |n| > 0 && !IsSpace(n[0]) && !IsSpace(n[|n| - 1])
            && forall i :: 0 <= i < |n| ==> n[i] != '-' && n[i] != '\n'
    decreases |names|
  {
    var t := names[0];
    assert forall i :: 0 <= i < |t| ==> t[i] != '-' && !IsSpace(t[i]);
    if |names| > 1 {
      JoinedNames(names[1..]);
      var r := Join(" ", names[1..]);
      var n := t + " " + r;
      assert Join(" ", names) == n;
      assert forall i :: 0 <= i < |n| ==> n[i] == (if i < |t| then t[i] else if i == |t| then ' ' else r[i - |t| - 1]);
    }
  }

  /** Before the ` - ` of a line whose names have no `-` and end in a non-space, the type tail cannot match. */
  lemma NoTypeTailBefore(s: string, n: nat)
    requires 0 < n < |s|
    requires forall i :: 0 <= i < n ==> s[i] != '-'
    requires !IsSpace(s[n - 1])
    ensures forall k :: 0 <= k < n ==> TypeTail(s, k).None?
  {
    forall k | 0 <= k < n
      ensures TypeTail(s, k).None?
    {
      var j := SkipSpaces(s, k);
      assert j < n;
    }
  }

  /** At the space before ` - type`, the type tail matches the type. */
  lemma TypeTailAtSeparator(s: string, n: nat, w: nat)
    requires n + 3 < w <= |s|
    requires s[n] == ' ' && s[n + 1] == '-' && s[n + 2] == ' '
    requires IsWord(s[n + 3..w])
    requires w == |s| || s[w] == '\n'
    ensures TypeTail(s, n) == Some((n + 3, w))
  {
    assert forall i :: n + 3 <= i < w ==> s[i] == s[n + 3..w][i - n - 3];
    assert SkipSpaces(s, n + 1) == n + 1;
    assert SkipSpaces(s, n) == n + 1;
    assert !IsSpace(s[n + 3]);
    assert SkipSpaces(s, n + 2) == n + 3;
    assert WordEnd(s, n + 3) == w;
  }

  /** The lazy `objs` of a line with no newline before its separator at `n` ends at `n`. */
  lemma LazyObjsAtSeparator(s: string, n: nat)
    requires n <= |s| && TypeTail(s, n).Some?
    requires forall k :: 0 <= k < n ==> TypeTail(s, k).None? && s[k] != '\n'
    ensures LazyObjs(s, 0) == Some(n)
  {
  }

  /** Where the object pattern matches on a declaration line, and where the next match attempt starts. */
  lemma DeclarationLineMatch(d: (seq<string>, string), rest: string)
    requires GoodDeclaration(d)
    requires rest == [] || (|rest| >= 2 && rest[0] == '\n' && !IsSpace(rest[1]))
    ensures var s := DeclarationLine(d) + rest;
            var n := |Join(" ", d.0)|;
            var w := n + 3 + |d.1|;
            && w <= |s|
            && SkipSpaces(s, 0) == 0
            && LazyObjs(s, 0) == Some(n)
            && TypeTail(s, n) == Some((n + 3, w))
            && s[0..n] == Join(" ", d.0) && s[n + 3..w] == d.1
            && s[SkipSpaces(s, w)..] == (if rest == [] then [] else rest[1..])
  {
    var names := Join(" ", d.0);
    var ty := d.1;
    JoinedNames(d.0);
    var n := |names|;
    var head := names + " - ";
    var s := head + ty + rest;
    assert s == DeclarationLine(d) + rest;
    var w := n + 3 + |ty|;
    assert s[..n] == names;
    assert s[n + 3..w] == ty;
    assert s[w..] == rest;
    assert forall i :: 0 <= i < n ==> s[i] == names[i];
    assert s[n] == ' ' && s[n + 1] == '-' && s[n + 2] == ' ';
    assert SkipSpaces(s, 0) == 0;
    NoTypeTailBefore(s, n);
    TypeTailAtSeparator(s, n, w);
    LazyObjsAtSeparator(s, n);
    if rest == [] {
      assert SkipSpaces(s, w) == w;
    } else {
      assert SkipSpaces(s, w) == w + 1;
      assert s[w + 1..] == rest[1..];
    }
  }

  /** The object pattern reads a declaration line as its names and its type, then goes on with the next line. */
  lemma DeclarationLineGroups(d: (seq<string>, string), rest: string, s: string, n: nat, w: nat)
    requires GoodDeclaration(d)
    requires rest == [] || (|rest| >= 2 && rest[0] == '\n' && !IsSpace(rest[1]))
    requires s == DeclarationLine(d) + rest && n == |Join(" ", d.0)| && w == n + 3 + |d.1|
    ensures ObjectGroups(s) == [(Join(" ", d.0), d.1)] + ObjectGroups(if rest == [] then [] else rest[1..])
  {
    DeclarationLineMatch(d, rest);
    ObjectGroupsFirst(s, n, w);
  }

  /** When the first match attempt succeeds, its pair comes first and the scan resumes after the trailing whitespace. */
  lemma ObjectGroupsFirst(s: string, n: nat, w: nat)
    requires n <= |s| && SkipSpaces(s, 0) == 0 && LazyObjs(s, 0) == Some(n)
    requires TypeTail(s, n) == Some((n + 3, w))
    ensures ObjectGroups(s) == [(s[0..n], s[n + 3..w])] + ObjectGroups(s[SkipSpaces(s, w)..])
  {
  }

  /** Declaration lines joined by newlines start with a non-whitespace character. */
  lemma DeclarationLinesStart(ds: seq<(seq<string>, string)>)
    requires |ds| > 0 && GoodDeclaration(ds[0])
    ensures var j := Join("\n", DeclarationLines(ds)); |j| > 0 && !IsSpace(j[0])
  {
    JoinedNames(ds[0].0);
    var line := DeclarationLine(ds[0]);
    assert line[0] == Join(" ", ds[0].0)[0];
    JoinStartsWith(DeclarationLines(ds), "\n", line[..1]);
  }

  /** The first declaration line, then a newline and the other lines. */
  lemma DeclarationLinesCons(ds: seq<(seq<string>, string)>)
    requires |ds| > 1
    ensures Join("\n", DeclarationLines(ds)) == DeclarationLine(ds[0]) + ("\n" + Join("\n", DeclarationLines(ds[1..])))
    ensures DeclaredGroups(ds) == [(Join(" ", ds[0].0), ds[0].1)] + DeclaredGroups(ds[1..])
  {
    assert DeclarationLines(ds)[1..] == DeclarationLines(ds[1..]);
  }

  /**
   * Declarations written one per line, `names - type`, are read back by the
   * object pattern as exactly their (names, type) pairs, in order.
   */
  lemma {:induction false} ObjectGroupsLines(ds: seq<(seq<string>, string)>)
    requires forall k :: 0 <= k < |ds| ==> GoodDeclaration(ds[k])
    ensures ObjectGroups(Join("\n", DeclarationLines(ds))) == DeclaredGroups(ds)
    decreases |ds|
  {
    if |ds| == 1 {
      var line := DeclarationLine(ds[0]);
      assert Join("\n", DeclarationLines(ds)) == line + [];
      DeclarationLineGroups(ds[0], [], line + [], |Join(" ", ds[0].0)|, |Join(" ", ds[0].0)| + 3 + |ds[0].1|);
      assert ObjectGroups([]) == [];
    } else if |ds| > 1 {
      var tail := Join("\n", DeclarationLines(ds[1..]));
      DeclarationLinesCons(ds);
      DeclarationLinesStart(ds[1..]);
      var rest := "\n" + tail;
      var n := |Join(" ", ds[0].0)|;
      DeclarationLineGroups(ds[0], rest, DeclarationLine(ds[0]) + rest, n, n + 3 + |ds[0].1|);
      assert rest[1..] == tail;
      ObjectGroupsLines(ds[1..]);
    }
  }
}
