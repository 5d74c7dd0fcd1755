/**
 * The comment-aware parenthesis scanners of `src/vilain_utils.py`:
 * `extract_pddl`, the action bounds of `PDDLDomain.parse_actions`
 * (`get_start_end_idxs`) and its fragment collector `extract_predicates`.
 *
 * All three walk the text one character at a time. A `;` starts a comment,
 * a newline ends it, and a parenthesis inside a comment does not change the
 * depth.
 */
module PddlScan {
  import opened Wrappers
  import opened PyText
  import opened PyFind

  /** Why a parse fails; the Python code raises IndexError, ValueError or AssertionError instead. */
  datatype ParseError =
    | NotFound(what: string)    // a marker, or a match of a regular expression, is missing
    | Unbalanced(what: string)  // the parentheses after a marker never close
    | Malformed(what: string)   // a fragment has too few whitespace-separated tokens

  // ---------------------------------------------------------------------------
  // The depth scan shared by extract_pddl and get_start_end_idxs
  // ---------------------------------------------------------------------------

  datatype ScanState = ScanState(depth: int, comment: bool)

  /** One character of the scan: `stack` and `is_comment` of the Python loops. */
  function Step(st: ScanState, c: char): ScanState {
    if c == ';' then st.(comment := true)
    else if c == '\n' then st.(comment := false)
    else if c == '(' && !st.comment then st.(depth := st.depth + 1)
    else if c == ')' && !st.comment then st.(depth := st.depth - 1)
    else st
  }

  /** The state after scanning all of `s` from depth 0, outside a comment. */
  function Scan(s: string): ScanState
    decreases |s|
  {
    if s == [] then ScanState(0, false) else Step(Scan(s[..|s| - 1]), s[|s| - 1])
  }

  function Depth(s: string): int {
    Scan(s).depth
  }

  /** The first `k >= i` at which the depth of `s[start..k + 1]` is zero or below. */
  function FirstNonPositive(s: string, start: nat, i: nat): (r: Option<nat>)
    requires start <= i <= |s|
    decreases |s| - i
    ensures r.Some? ==> i <= r.value < |s| && Depth(s[start..r.value + 1]) <= 0
    ensures forall e :: i < e <= |s| && (r.None? || e <= r.value) ==> Depth(s[start..e]) > 0
  {
    if i == |s| then None
    else if Depth(s[start..i + 1]) <= 0 then Some(i)
    else FirstNonPositive(s, start, i + 1)
  }

  /** Where the scan that starts at `start` stops: the first index at which the depth drops to zero. */
  function BalancedEnd(s: string, start: nat): Option<nat>
    requires start <= |s|
  {
    FirstNonPositive(s, start, start)
  }

  /**
   * The loop of `extract_pddl` (and, with `end_idx = idx + 1`, the inner loop of
   * `get_start_end_idxs`): scan from `start` until the depth drops to zero.
   */
  method ScanBalanced(s: string, start: nat) returns (end: Option<nat>)
    requires start <= |s|
    ensures end == BalancedEnd(s, start)
  {
    var stack := 0;
    var isComment := false;
    var i := start;
    while i < |s|
      invariant start <= i <= |s|
      invariant Scan(s[start..i]) == ScanState(stack, isComment)
      invariant FirstNonPositive(s, start, i) == BalancedEnd(s, start)
      decreases |s| - i
    {
      if s[i] == ';' {
        isComment := true;
      } else if s[i] == '\n' {
        isComment := false;
      } else if s[i] == '(' {
        if !isComment {
          stack := stack + 1;
        }
      } else if s[i] == ')' {
        if !isComment {
          stack := stack - 1;
        }
      }
      ScanSnoc(s, start, i);
      if stack <= 0 {
        return Some(i);
      }
      i := i + 1;
    }
    return None;
  }

  lemma ScanSnoc(s: string, start: nat, i: nat)
    requires start <= i < |s|
    ensures Scan(s[start..i + 1]) == Step(Scan(s[start..i]), s[i])
  {
    assert s[start..i + 1][..i - start] == s[start..i];
  }

  /** A marker such as `(:init`: an opening parenthesis followed by characters the scan ignores. */
  predicate PlainAfterOpen(m: string) {
    |m| >= 1 && m[0] == '('
    && forall k :: 1 <= k < |m| ==> m[k] != '(' && m[k] != ')' && m[k] != ';' && m[k] != '\n'
  }

  lemma {:induction false} ScanPlainAfterOpen(m: string, k: nat)
    requires PlainAfterOpen(m) && 1 <= k <= |m|
    ensures Scan(m[..k]) == ScanState(1, false)
    decreases k
  {
    assert m[..k][..k - 1] == m[..k - 1];
    if k > 1 {
      ScanPlainAfterOpen(m, k - 1);
    }
  }

  /** The span a successful scan returns, as promised to the callers of the scan. */
  predicate BalancedSpan(r: string, m: string) {
    && |r| >= 2
    && OccursAt(r, m, 0)
    && r[|r| - 1] == ')'
    && Depth(r) == 0
    && forall k :: 1 <= k < |r| ==> Depth(r[..k]) >= 1
  }

  /** Inside a marker that opens one parenthesis, the depth stays at 1. */
  lemma MarkerDepth(s: string, start: nat, m: string)
    requires OccursAt(s, m, start) && PlainAfterOpen(m)
    ensures forall e :: start < e <= start + |m| ==> Depth(s[start..e]) == 1
  {
    OccursAtSlice(s, m, start);
    forall e | start < e <= start + |m|
      ensures Depth(s[start..e]) == 1
    {
      assert s[start..e] == s[start..start + |m|][..e - start];
      ScanPlainAfterOpen(m, e - start);
    }
  }

  /**
   * A scan that starts at an occurrence of a marker and succeeds spans the marker,
   * ends with the `)` at which the depth first reaches 0, and every proper prefix
   * has depth at least 1.
   */
  lemma {:induction false} ScanSpan(s: string, start: nat, m: string)
    requires OccursAt(s, m, start) && PlainAfterOpen(m)
    requires BalancedEnd(s, start).Some?
    ensures var r := s[start..BalancedEnd(s, start).value + 1]; |r| > |m| && BalancedSpan(r, m)
  {
    var end := BalancedEnd(s, start).value;
    var r := s[start..end + 1];
    MarkerDepth(s, start, m);
    assert end >= start + |m|;
    SpanStartsWithMarker(s, start, m, r);
    PrefixDepths(s, start, r);
    ClosingStep(r);
  }

  /** The step that takes the depth from at least 1 to at most 0 is a `)` from exactly 1. */
  lemma ClosingStep(r: string)
    requires |r| >= 2 && Depth(r[..|r| - 1]) >= 1 && Depth(r) <= 0
    ensures r[|r| - 1] == ')' && Depth(r) == 0
  {
    assert Scan(r) == Step(Scan(r[..|r| - 1]), r[|r| - 1]);
  }

  lemma SpanStartsWithMarker(s: string, start: nat, m: string, r: string)
    requires OccursAt(s, m, start) && start + |r| <= |s| && |r| >= |m| && r == s[start..start + |r|]
    ensures OccursAt(r, m, 0)
  {
    OccursAtSlice(s, m, start);
    assert r[..|m|] == s[start..start + |m|];
    OccursAtSlice(r, m, 0);
  }

  lemma PrefixDepths(s: string, start: nat, r: string)
    requires start <= |s| && BalancedEnd(s, start).Some? && r == s[start..BalancedEnd(s, start).value + 1]
    ensures forall k :: 1 <= k < |r| ==> Depth(r[..k]) >= 1
  {
    forall k | 1 <= k < |r|
      ensures Depth(r[..k]) >= 1
    {
      assert r[..k] == s[start..start + k];
      assert Depth(s[start..start + k]) > 0;
    }
  }

  // ---------------------------------------------------------------------------
  // extract_pddl
  // ---------------------------------------------------------------------------

  /** The marker `extract_pddl` looks for, by `part`. */
  function Marker(part: string): Option<string> {
    if part == "init" then Some("(:init")
    else if part == "goal" then Some("(:goal")
    else if part == "whole" then Some("(define")
    else None
  }

  lemma MarkerPlain(part: string)
    requires Marker(part).Some?
    ensures PlainAfterOpen(Marker(part).value)
  {
  }

  /**
   * What `extract_pddl(output_raw, part)` returns: from the first occurrence of
   * the marker through the `)` at which the depth first returns to zero, or ""
   * in the three failure cases.
   */
  function PddlSection(s: string, part: string): (r: string)
    ensures r == "" <==>
      || Marker(part).None?
      || Find(s, Marker(part).value, 0).None?
      || BalancedEnd(s, Find(s, Marker(part).value, 0).value).None?
  {
    match Marker(part)
    case None => ""
    case Some(m) =>
      match Find(s, m, 0)
      case None => ""
      case Some(start) =>
        match BalancedEnd(s, start)
        case None => ""
        case Some(end) => s[start..end + 1]
  }

  /** `extract_pddl`. */
  method ExtractPddl(outputRaw: string, part: string) returns (r: string)
    ensures r == PddlSection(outputRaw, part)
  {
    var startStr: string;
    if part == "init" {
      startStr := "(:init";
    } else if part == "goal" {
      startStr := "(:goal";
    } else if part == "whole" {
      startStr := "(define";
    } else {
      return "";
    }
    var found := Find(outputRaw, startStr, 0);
    if found.None? {
      return "";
    }
    var startIdx := found.value;
    var endIdx := ScanBalanced(outputRaw, startIdx);
    if endIdx.None? {
      return "";
    }
    return outputRaw[startIdx..endIdx.value + 1];
  }

  /**
   * A non-empty result starts at the first occurrence of the marker, ends with the
   * `)` at which the non-comment depth first reaches 0, and every proper prefix
   * has depth at least 1.
   */
  lemma PddlSectionShape(s: string, part: string)
    requires PddlSection(s, part) != ""
    ensures Marker(part).Some? && Find(s, Marker(part).value, 0).Some?
    ensures var r := PddlSection(s, part);
            var m := Marker(part).value;
            var start := Find(s, m, 0).value;
            && (forall j: nat :: j < start ==> !OccursAt(s, m, j))
            && start + |r| <= |s| && r == s[start..start + |r|]
            && BalancedSpan(r, m)
  {
    var m := Marker(part).value;
    MarkerPlain(part);
    var start := Find(s, m, 0).value;
    var end := BalancedEnd(s, start).value;
    assert PddlSection(s, part) == s[start..end + 1];
    ScanSpan(s, start, m);
  }

  /** The scan from `start` depends only on the depths of the prefixes it visits. */
  lemma FirstNonPositiveSameDepths(s: string, t: string, start: nat, i: nat)
    requires |s| == |t| && start <= i <= |s|
    requires forall e :: i < e <= |s| ==> Depth(s[start..e]) == Depth(t[start..e])
    ensures FirstNonPositive(s, start, i) == FirstNonPositive(t, start, i)
  {
    var a := FirstNonPositive(s, start, i);
    var b := FirstNonPositive(t, start, i);
    if a.Some? {
      assert Depth(t[start..a.value + 1]) <= 0;
    }
    if b.Some? {
      assert Depth(s[start..b.value + 1]) <= 0;
    }
  }

  /** Applying `extract_pddl` with the same part to its own non-empty result returns it unchanged. */
  lemma PddlSectionIdempotent(s: string, part: string)
    requires PddlSection(s, part) != ""
    ensures PddlSection(PddlSection(s, part), part) == PddlSection(s, part)
  {
    var r := PddlSection(s, part);
    PddlSectionShape(s, part);
    var m := Marker(part).value;
    assert Find(r, m, 0) == Some(0);
    SpanRescans(r, m);
    assert r[0..|r|] == r;
  }

  /** Scanning a balanced span from its start stops at its last character. */
  lemma SpanRescans(r: string, m: string)
    requires BalancedSpan(r, m)
    ensures BalancedEnd(r, 0) == Some(|r| - 1)
  {
    assert r[0..|r|] == r;
    forall k | 0 < k < |r|
      ensures Depth(r[0..k]) > 0
    {
      assert r[0..k] == r[..k];
    }
  }

  /** After a `;` and before the next newline the scan is inside a comment. */
  lemma {:induction false} InComment(s: string, j: nat, i: nat)
    requires j < i <= |s| && s[j] == ';'
    requires forall k :: j < k < i ==> s[k] != '\n'
    ensures Scan(s[..i]).comment
    decreases i
  {
    assert s[..i][..i - 1] == s[..i - 1];
    if i - 1 > j {
      InComment(s, j, i - 1);
    }
  }

  /** A `(` or `)` between a `;` and the next newline does not change the depth. */
  lemma ParenInCommentInert(s: string, j: nat, i: nat)
    requires j < i < |s| && s[j] == ';' && (s[i] == '(' || s[i] == ')')
    requires forall k :: j < k < i ==> s[k] != '\n'
    ensures Depth(s[..i + 1]) == Depth(s[..i])
  {
    InComment(s, j, i);
    assert s[..i + 1][..i] == s[..i];
  }

  /**
   * Changing a character inside a comment into any other character except a
   * newline changes no state of the scan.
   */
  lemma {:induction false} CommentEditInvisible(s: string, i: nat, c: char, k: nat)
    requires i < |s| && Scan(s[..i]).comment && s[i] != '\n' && c != '\n'
    requires k <= |s|
    ensures Scan(s[i := c][..k]) == Scan(s[..k])
    decreases k
  {
    var t := s[i := c];
    if k <= i {
      assert t[..k] == s[..k];
    } else {
      CommentEditInvisible(s, i, c, k - 1);
      assert t[..k][..k - 1] == t[..k - 1];
      assert s[..k][..k - 1] == s[..k - 1];
    }
  }

  /**
   * Comment invisibility: editing a bracket (or any other character) inside a
   * comment of the scanned text leaves the end of the scan where it was.
   */
  lemma CommentEditKeepsEnd(s: string, start: nat, i: nat, c: char)
    requires start <= i < |s| && Scan(s[start..i]).comment && s[i] != '\n' && c != '\n'
    ensures BalancedEnd(s[i := c], start) == BalancedEnd(s, start)
  {
    var t := s[i := c];
    var u := s[start..];
    assert u[..i - start] == s[start..i];
    forall e | start < e <= |s|
      ensures Depth(s[start..e]) == Depth(t[start..e])
    {
      CommentEditInvisible(u, i - start, c, e - start);
      assert u[i - start := c] == t[start..];
      assert u[..e - start] == s[start..e];
      assert t[start..][..e - start] == t[start..e];
    }
    FirstNonPositiveSameDepths(s, t, start, start);
  }

  // ---------------------------------------------------------------------------
  // get_start_end_idxs
  // ---------------------------------------------------------------------------

  const ActionMarker: string := "(:action"

  /**
   * What `get_start_end_idxs` returns, for the marker `m` (the source searches
   * for `(:action`): every occurrence of `m`, comments included, and for each the
   * index just after the `)` that closes it.
   */
  function StartEndIdxsSpec(s: string, m: string): (r: Result<(seq<nat>, seq<nat>), ParseError>)
    requires |m| > 0
    ensures r.Success? ==> |r.value.1| == |r.value.0|
    ensures r.Success? ==> forall k :: 0 <= k < |r.value.0| ==> r.value.0[k] < r.value.1[k] <= |s|
  {
    var starts := Occurrences(s, m);
    OccurrencesExact(s, m);
    assert forall k :: 0 <= k < |starts| ==> starts[k] in starts;
    if starts == [] then Failure(NotFound(m))
    else if exists k :: 0 <= k < |starts| && BalancedEnd(s, starts[k]).None? then
      Failure(Unbalanced(m))
    else
      Success((starts, seq(|starts|, k requires 0 <= k < |starts| => BalancedEnd(s, starts[k]).value + 1)))
  }

  /** `get_start_end_idxs`, for the marker `m`. */
  method StartEndIdxs(s: string, m: string) returns (r: Result<(seq<nat>, seq<nat>), ParseError>)
    requires |m| > 0
    ensures r == StartEndIdxsSpec(s, m)
  {
    var starts := StartIdxs(s, m);
    if starts.None? {
      return Failure(NotFound(m));
    }
    var startIdxs := starts.value;
    OccurrencesExact(s, m);
    assert forall k :: 0 <= k < |startIdxs| ==> startIdxs[k] in startIdxs;

    var endIdxs: seq<nat> := [];
    for k := 0 to |startIdxs|
      invariant |endIdxs| == k
      invariant forall j :: 0 <= j < k ==>
        BalancedEnd(s, startIdxs[j]).Some? && endIdxs[j] == BalancedEnd(s, startIdxs[j]).value + 1
    {
      var endIdx := ScanBalanced(s, startIdxs[k]);
      if endIdx.None? {
        UnbalancedBlock(s, m, k);
        return Failure(Unbalanced(m));
      }
      endIdxs := endIdxs + [endIdx.value + 1];
    }
    BalancedBlocks(s, m, endIdxs);
    return Success((startIdxs, endIdxs));
  }

  lemma UnbalancedBlock(s: string, m: string, k: nat)
    requires |m| > 0
    requires var starts := Occurrences(s, m);
      k < |starts| && starts[k] <= |s| && BalancedEnd(s, starts[k]).None?
    ensures StartEndIdxsSpec(s, m) == Failure(Unbalanced(m))
  {
  }

  lemma BalancedBlocks(s: string, m: string, ends: seq<nat>)
    requires |m| > 0
    requires var starts := Occurrences(s, m);
      && starts != [] && |ends| == |starts|
      && forall j :: 0 <= j < |starts| ==>
           starts[j] <= |s| && BalancedEnd(s, starts[j]).Some? && ends[j] == BalancedEnd(s, starts[j]).value + 1
    ensures StartEndIdxsSpec(s, m) == Success((Occurrences(s, m), ends))
  {
    var starts := Occurrences(s, m);
    assert ends == seq(|starts|, k requires 0 <= k < |starts| => BalancedEnd(s, starts[k]).value + 1);
  }

  lemma ActionMarkerPlain()
    ensures PlainAfterOpen(ActionMarker)
  {
  }

  /**
   * The start indices are exactly the occurrences of the marker, in strictly
   * increasing order, and each slice starts with the marker and ends just after
   * the `)` at which the depth returns to 0.
   */
  lemma StartEndIdxsShape(s: string, m: string)
    requires PlainAfterOpen(m) && StartEndIdxsSpec(s, m).Success?
    ensures var (starts, ends) := StartEndIdxsSpec(s, m).value;
            && StrictlyIncreasing(starts)
            && (forall i :: i in starts <==> OccursAt(s, m, i))
            && |ends| == |starts|
            && forall k :: 0 <= k < |starts| ==>
                 starts[k] < ends[k] <= |s| && BalancedSpan(s[starts[k]..ends[k]], m)
  {
    var (starts, ends) := StartEndIdxsSpec(s, m).value;
    OccurrencesExact(s, m);
    forall k | 0 <= k < |starts|
      ensures starts[k] < ends[k] <= |s| && BalancedSpan(s[starts[k]..ends[k]], m)
    {
      assert starts[k] in starts;
      ScanSpan(s, starts[k], m);
    }
  }

  /** A missing marker, or a marker whose parentheses never close, is a failure. */
  lemma StartEndIdxsFailure(s: string, m: string)
    requires |m| > 0
    ensures StartEndIdxsSpec(s, m).Failure? <==>
      || (forall i :: !OccursAt(s, m, i))
      || (exists i :: OccursAt(s, m, i) && BalancedEnd(s, i).None?)
  {
    OccurrencesExact(s, m);
    var starts := Occurrences(s, m);
    if exists i :: OccursAt(s, m, i) && BalancedEnd(s, i).None? {
      var i :| OccursAt(s, m, i) && BalancedEnd(s, i).None?;
      assert i in starts;
      var k :| 0 <= k < |starts| && starts[k] == i;
    }
    if starts != [] {
      assert starts[0] in starts;
    }
  }

  // ---------------------------------------------------------------------------
  // extract_predicates
  // ---------------------------------------------------------------------------

  /**
   * The state of `extract_predicates`: `stack`, the text from `start_idx` through
   * the current character when `start_idx >= 0`, `is_comment`, and the fragments
   * collected so far.
   */
  datatype FragState = FragState(depth: int, open: Option<string>, comment: bool, frags: seq<string>)

  const FragStart: FragState := FragState(0, None, false, [])

  function Extend(o: Option<string>, c: char): Option<string> {
    if o.Some? then Some(o.value + [c]) else None
  }

  /** One character of `extract_predicates`. */
  function FragStep(st: FragState, c: char): FragState {
    if c == '(' && !st.comment then
      var d := st.depth + 1;
      st.(depth := d, open := if d == 1 then Some("(") else Extend(st.open, c))
    else if c == ')' && !st.comment then
      var d := st.depth - 1;
      var o := Extend(st.open, c);
      st.(depth := d, open := o, frags := if d <= 0 && o.Some? then st.frags + [o.value] else st.frags)
    else if c == ';' then
      st.(comment := true, open := Extend(st.open, c))
    else if c == '\n' then
      FragState(0, None, false, st.frags)
    else
      st.(open := Extend(st.open, c))
  }

  function FragScan(st: FragState, s: string): FragState
    decreases |s|
  {
    if s == [] then st else FragScan(FragStep(st, s[0]), s[1..])
  }

  /** What `extract_predicates(substr)` returns. */
  function PredicateFragments(sub: string): seq<string> {
    FragScan(FragStart, sub).frags
  }

  lemma {:induction false} FragScanAppend(st: FragState, a: string, b: string)
    ensures FragScan(st, a + b) == FragScan(FragScan(st, a), b)
    decreases |a|
  {
    if a != [] {
      assert (a + b)[0] == a[0];
      assert (a + b)[1..] == a[1..] + b;
      calc {
        FragScan(st, a + b);
        FragScan(FragStep(st, a[0]), a[1..] + b);
        { FragScanAppend(FragStep(st, a[0]), a[1..], b); }
        FragScan(FragScan(FragStep(st, a[0]), a[1..]), b);
      }
    } else {
      assert a + b == b;
    }
  }

  /** `extract_predicates`. */
  method ExtractPredicates(sub: string) returns (predicates: seq<string>)
    ensures predicates == PredicateFragments(sub)
  {
    var stack := 0;
    var startIdx := -1;
    var isComment := false;
    predicates := [];
    for i := 0 to |sub|
      invariant -1 <= startIdx < i || startIdx == -1
      invariant FragScan(FragStart, sub[..i])
                == FragState(stack, if startIdx >= 0 then Some(sub[startIdx..i]) else None, isComment, predicates)
    {
      ghost var before := FragScan(FragStart, sub[..i]);
      if sub[i] == '(' {
        if !isComment {
          stack := stack + 1;
          if stack == 1 {
            startIdx := i;
          }
        }
      } else if sub[i] == ')' {
        if !isComment {
          stack := stack - 1;
          if stack <= 0 && startIdx >= 0 {
            predicates := predicates + [sub[startIdx..i + 1]];
          }
        }
      } else if sub[i] == ';' {
        isComment := true;
      } else if sub[i] == '\n' {
        isComment := false;
        stack := 0;
        startIdx := -1;
      }
      FragScanAppend(FragStart, sub[..i], [sub[i]]);
      assert sub[..i + 1] == sub[..i] + [sub[i]];
      assert FragScan(before, [sub[i]]) == FragStep(before, sub[i]);
      if 0 <= startIdx < i {
        assert sub[startIdx..i + 1] == sub[startIdx..i] + [sub[i]];
      }
    }
    assert sub[..|sub|] == sub;
  }

  /** A collected fragment: it begins with `(`, ends with `)` and has no newline. */
  predicate GoodFragment(f: string) {
    |f| >= 2 && f[0] == '(' && f[|f| - 1] == ')' && '\n' !in f
  }

  predicate GoodFragState(st: FragState) {
    && (st.open.Some? ==> |st.open.value| >= 1 && st.open.value[0] == '(' && '\n' !in st.open.value)
    && forall k :: 0 <= k < |st.frags| ==> GoodFragment(st.frags[k])
  }

  lemma {:induction false} FragScanGood(st: FragState, s: string)
    requires GoodFragState(st)
    ensures GoodFragState(FragScan(st, s))
    decreases |s|
  {
    if s != [] {
      var st' := FragStep(st, s[0]);
      assert GoodFragState(st');
      FragScanGood(st', s[1..]);
    }
  }

  /** Every fragment of `extract_predicates` begins with `(`, ends with `)` and contains no newline. */
  lemma FragmentsWellFormed(sub: string)
    ensures forall k :: 0 <= k < |PredicateFragments(sub)| ==> GoodFragment(PredicateFragments(sub)[k])
  {
    FragScanGood(FragStart, sub);
  }

  /** The scan only appends to the fragments it has collected. */
  lemma {:induction false} FragScanExtends(st: FragState, s: string)
    ensures st.frags <= FragScan(st, s).frags
    decreases |s|
  {
    if s != [] {
      FragScanExtends(FragStep(st, s[0]), s[1..]);
    }
  }

  /** Fragments appear in the order in which they close: those closed in `a` come first. */
  lemma FragmentsOrdered(a: string, b: string)
    ensures PredicateFragments(a) <= PredicateFragments(a + b)
  {
    FragScanAppend(FragStart, a, b);
    FragScanExtends(FragScan(FragStart, a), b);
  }

  /** The collected fragments play no part in the scan, they are only appended to. */
  lemma {:induction false} FragScanIgnoresFrags(st: FragState, s: string)
    ensures var r := FragScan(st.(frags := []), s);
            FragScan(st, s) == r.(frags := st.frags + r.frags)
    decreases |s|
  {
    if s != [] {
      var st' := FragStep(st, s[0]);
      var e' := FragStep(st.(frags := []), s[0]);
      FragStepIgnoresFrags(st, s[0]);
      FragScanIgnoresFrags(st', s[1..]);
      FragScanIgnoresFrags(e', s[1..]);
      assert st'.(frags := []) == e'.(frags := []);
    }
  }

  lemma FragStepIgnoresFrags(st: FragState, c: char)
    ensures var e := FragStep(st.(frags := []), c);
            FragStep(st, c) == e.(frags := st.frags + e.frags)
  {
    if c == ')' && !st.comment {
      var o := Extend(st.open, c);
      if st.depth - 1 <= 0 && o.Some? {
        assert st.frags + [o.value] == st.frags + ([] + [o.value]);
      }
    }
  }

  /**
   * A newline resets the depth to 0 and the start to -1: the fragments of a text
   * are those of the part before a newline followed by those of the part after it.
   */
  lemma FragmentsSplitAtNewline(a: string, b: string)
    ensures PredicateFragments(a + "\n" + b) == PredicateFragments(a) + PredicateFragments(b)
  {
    FragScanAppend(FragStart, a, "\n" + b);
    var st := FragScan(FragStart, a);
    assert ("\n" + b)[0] == '\n' && ("\n" + b)[1..] == b;
    assert FragScan(st, "\n" + b) == FragScan(FragStep(st, '\n'), b);
    var nl := FragStep(st, '\n');
    assert nl.(frags := []) == FragStart;
    FragScanIgnoresFrags(nl, b);
    assert a + "\n" + b == a + ("\n" + b);
  }

  /**
   * `start_idx` is not reset when a group closes: a stray `)` later on the same
   * line closes a second fragment from the same start.
   */
  lemma StrayCloseRepeatsFragment()
    ensures PredicateFragments("(p) )") == ["(p)", "(p) )"]
  {
    var s := "(p) )";
    var st1 := FragState(1, Some("("), false, []);
    var st2 := FragState(1, Some("(p"), false, []);
    var st3 := FragState(0, Some("(p)"), false, ["(p)"]);
    var st4 := FragState(0, Some("(p) "), false, ["(p)"]);
    var st5 := FragState(-1, Some("(p) )"), false, ["(p)", "(p) )"]);
    assert FragStep(FragStart, s[0]) == st1;
    assert FragStep(st1, s[1]) == st2 by { assert "(" + "p" == "(p"; }
    assert FragStep(st2, s[2]) == st3 by { assert "(p" + ")" == "(p)"; }
    assert FragStep(st3, s[3]) == st4 by { assert "(p)" + " " == "(p) "; }
    assert FragStep(st4, s[4]) == st5 by { assert "(p) " + ")" == "(p) )"; assert ["(p)"] + ["(p) )"] == ["(p)", "(p) )"]; }
    assert FragScan(st5, s[5..]) == st5;
    assert FragScan(st4, s[4..]) == st5;
    assert FragScan(st3, s[3..]) == st5;
    assert FragScan(st2, s[2..]) == st5;
    assert FragScan(st1, s[1..]) == st5;
  }

  /**
   * Groups inside a group on one line are not fragments of their own: only
   * the outermost group is collected.
   */
  lemma NestedGroupOneFragment()
    ensures PredicateFragments("(a (p))") == ["(a (p))"]
  {
    var s := "(a (p))";
    var st1 := FragState(1, Some("("), false, []);
    var st2 := FragState(1, Some("(a"), false, []);
    var st3 := FragState(1, Some("(a "), false, []);
    var st4 := FragState(2, Some("(a ("), false, []);
    var st5 := FragState(2, Some("(a (p"), false, []);
    var st6 := FragState(1, Some("(a (p)"), false, []);
    var st7 := FragState(0, Some("(a (p))"), false, ["(a (p))"]);
    assert FragStep(FragStart, s[0]) == st1;
    assert FragStep(st1, s[1]) == st2 by { assert "(" + "a" == "(a"; }
    assert FragStep(st2, s[2]) == st3 by { assert "(a" + " " == "(a "; }
    assert FragStep(st3, s[3]) == st4 by { assert "(a " + "(" == "(a ("; }
    assert FragStep(st4, s[4]) == st5 by { assert "(a (" + "p" == "(a (p"; }
    assert FragStep(st5, s[5]) == st6 by { assert "(a (p" + ")" == "(a (p)"; }
    assert FragStep(st6, s[6]) == st7 by { assert "(a (p)" + ")" == "(a (p))"; }
    assert FragScan(st7, s[7..]) == st7;
    assert FragScan(st6, s[6..]) == st7;
    assert FragScan(st5, s[5..]) == st7;
    assert FragScan(st4, s[4..]) == st7;
    assert FragScan(st3, s[3..]) == st7;
    assert FragScan(st2, s[2..]) == st7;
    assert FragScan(st1, s[1..]) == st7;
  }
}
