/**
 * The integer and text loops of `src/segment.py`: `extract`, which cuts the
 * first balanced `[...]` out of a model answer, the union of the detected
 * boxes in `detect_sliced_objects`, and the small-box filter of
 * `get_bounding_boxes`.
 */
module Segment {
  import opened Wrappers
  import opened PyText

  // ---------------------------------------------------------------------------
  // extract
  // ---------------------------------------------------------------------------

  /** Why `extract` raises: `index` finds no `[` (ValueError), or `end` stays `None` (TypeError on `None + 1`). */
  datatype ExtractError = NoOpenBracket | Unbalanced

  /** What one character does to `stack`: only `[` and `]` count. */
  function Delta(c: char): int {
    if c == '[' then 1 else if c == ']' then -1 else 0
  }

  /** `stack` after scanning all of `s` from zero. */
  function BracketDepth(s: string): int
    decreases |s|
  {
    if s == [] then 0 else BracketDepth(s[..|s| - 1]) + Delta(s[|s| - 1])
  }

  /** The first `k >= i` at which the depth of `s[start..k + 1]` is zero or below. */
  function FirstClosing(s: string, start: nat, i: nat): (r: Option<nat>)
    requires start <= i <= |s|
    decreases |s| - i
    ensures r.Some? ==> i <= r.value < |s| && BracketDepth(s[start..r.value + 1]) <= 0
    ensures forall e :: i < e <= |s| && (r.None? || e <= r.value) ==> BracketDepth(s[start..e]) > 0
  {
    if i == |s| then None
    else if BracketDepth(s[start..i + 1]) <= 0 then Some(i)
    else FirstClosing(s, start, i + 1)
  }

  /** The bounds `start` and `end + 1` that `extract` slices with, or why it raises. */
  function ExtractSpan(output: string): Result<(nat, nat), ExtractError> {
    var start := CharEnd(output, '[', 0);
    if start == |output| then Failure(NoOpenBracket)
    else
      match FirstClosing(output, start, start)
      case None => Failure(Unbalanced)
      case Some(end) => Success((start, end + 1))
  }

  function ExtractSpec(output: string): Result<string, ExtractError> {
    var (start, stop) :- ExtractSpan(output);
    Success(output[start..stop])
  }

  /** `extract`. */
  method Extract(output: string) returns (r: Result<string, ExtractError>)
    ensures r == ExtractSpec(output)
  {
    var start := CharEnd(output, '[', 0);
    if start == |output| {
      return Failure(NoOpenBracket);
    }
    var end := ScanBrackets(output, start);
    if end.None? {
      return Failure(Unbalanced);
    }
    return Success(output[start..end.value + 1]);
  }

  /** The loop of `extract`: scan from `start` until `stack` drops to zero. */
  method ScanBrackets(output: string, start: nat) returns (end: Option<nat>)
    requires start <= |output|
    ensures end == FirstClosing(output, start, start)
  {
    end := None;
    var stack := 0;
    var i := start;
    while i < |output|
      invariant start <= i <= |output|
      invariant stack == BracketDepth(output[start..i])
      invariant FirstClosing(output, start, i) == FirstClosing(output, start, start)
      decreases |output| - i
    {
      if output[i] == '[' {
        stack := stack + 1;
      }
      if output[i] == ']' {
        stack := stack - 1;
      }
      DepthStep(output, start, i);
      if stack <= 0 {
        end := Some(i);
        break;
      }
      i := i + 1;
    }
  }

  /** One more character adds its `Delta` to the depth. */
  lemma DepthStep(s: string, start: nat, i: nat)
    requires start <= i < |s|
    ensures BracketDepth(s[start..i + 1]) == BracketDepth(s[start..i]) + Delta(s[i])
  {
    assert s[start..i + 1][..i - start] == s[start..i];
  }

  /** `extract` fails with ValueError exactly when the text has no `[`. */
  lemma ExtractNoBracket(output: string)
    ensures ExtractSpec(output) == Failure(NoOpenBracket) <==> '[' !in output
  {
    var start := CharEnd(output, '[', 0);
    if start < |output| {
      assert output[start] == '[';
    }
  }

  /**
   * `extract` fails rather than returning a partial span exactly when the
   * text has a `[` but the depth from the first `[` never comes back to zero.
   */
  lemma ExtractUnbalanced(output: string)
    ensures ExtractSpec(output) == Failure(Unbalanced) <==>
      var start := CharEnd(output, '[', 0);
      start < |output| && forall e :: start < e <= |output| ==> BracketDepth(output[start..e]) > 0
  {
  }

  /**
   * A successful result starts at the first `[` of the text, begins with `[`,
   * ends with the `]` at which the depth first reaches zero, and every proper
   * non-empty prefix has positive depth.
   */
  lemma ExtractShape(output: string)
    requires ExtractSpec(output).Success?
    ensures var r := ExtractSpec(output).value;
            var start := CharEnd(output, '[', 0);
            && start + |r| <= |output| && output[start..start + |r|] == r
            && (forall k :: 0 <= k < start ==> output[k] != '[')
            && BracketSpan(r)
  {
    var (start, stop) := ExtractSpan(output).value;
    var r := output[start..stop];
    forall k | 1 <= k < |r|
      ensures BracketDepth(r[..k]) >= 1
    {
      assert r[..k] == output[start..start + k];
    }
    assert BracketDepth(r[..1]) == 1 by {
      assert r[..1] == [output[start]];
      assert [output[start]][..0] == [];
    }
    ClosingStep(r);
  }

  /** What a successful `extract` returns. */
  predicate BracketSpan(r: string) {
    && |r| >= 1 && r[0] == '[' && r[|r| - 1] == ']'
    && BracketDepth(r) == 0
    && forall k :: 1 <= k < |r| ==> BracketDepth(r[..k]) >= 1
  }

  /** The last step of a span that drops from positive depth to zero or below is a `]` reaching exactly zero. */
  lemma ClosingStep(r: string)
    requires |r| >= 1 && r[0] == '['
    requires BracketDepth(r) <= 0
    requires forall k :: 1 <= k < |r| ==> BracketDepth(r[..k]) >= 1
    ensures r[|r| - 1] == ']' && BracketDepth(r) == 0
  {
    assert BracketDepth(r[..1]) == 1 by {
      assert r[..1][..0] == [];
    }
    assert BracketDepth(r[..|r| - 1]) >= 1;
  }

  /** Applying `extract` to its own result returns that result unchanged. */
  lemma ExtractIdempotent(output: string)
    requires ExtractSpec(output).Success?
    ensures ExtractSpec(ExtractSpec(output).value) == ExtractSpec(output)
  {
    ExtractShape(output);
    var r := ExtractSpec(output).value;
    assert CharEnd(r, '[', 0) == 0;
    assert r[0..|r|] == r;
    assert forall k :: 1 <= k < |r| ==> r[0..k] == r[..k];
    FirstClosingAt(r, 0, 0, |r| - 1);
  }

  /** The scan from `i` stops at `e` when every depth before `e` is positive and the depth at `e` is not. */
  lemma {:induction false} FirstClosingAt(s: string, start: nat, i: nat, e: nat)
    requires start <= i <= e < |s|
    requires forall k :: i < k <= e ==> BracketDepth(s[start..k]) > 0
    requires BracketDepth(s[start..e + 1]) <= 0
    ensures FirstClosing(s, start, i) == Some(e)
    decreases e - i
  {
    if i < e {
      FirstClosingAt(s, start, i + 1, e);
    }
  }

  /** Only `[` and `]` affect the depth: texts with brackets at the same places have the same depth. */
  lemma {:induction false} BracketDepthSameBrackets(s: string, t: string)
    requires SameBrackets(s, t)
    ensures BracketDepth(s) == BracketDepth(t)
    decreases |s|
  {
    if s != [] {
      BracketDepthSameBrackets(s[..|s| - 1], t[..|t| - 1]);
    }
  }

  /** `s` and `t` have the same length and the same `[` and `]` positions. */
  predicate SameBrackets(s: string, t: string) {
    |s| == |t| && forall k :: 0 <= k < |s| ==> (s[k] == '[' <==> t[k] == '[') && (s[k] == ']' <==> t[k] == ']')
  }

  lemma SameBracketsSlice(s: string, t: string, a: nat, b: nat)
    requires SameBrackets(s, t) && a <= b <= |s|
    ensures SameBrackets(s[a..b], t[a..b])
  {
  }

  lemma {:induction false} FirstClosingSameBrackets(s: string, t: string, start: nat, i: nat)
    requires SameBrackets(s, t) && start <= i <= |s|
    ensures FirstClosing(s, start, i) == FirstClosing(t, start, i)
    decreases |s| - i
  {
    if i < |s| {
      SameBracketsSlice(s, t, start, i + 1);
      BracketDepthSameBrackets(s[start..i + 1], t[start..i + 1]);
      FirstClosingSameBrackets(s, t, start, i + 1);
    }
  }

  /**
   * Braces, parentheses and every other character are ignored: texts with
   * their brackets at the same places are cut at the same bounds.
   */
  lemma ExtractOnlyBrackets(s: string, t: string)
    requires SameBrackets(s, t)
    ensures ExtractSpan(s) == ExtractSpan(t)
  {
    var a := CharEnd(s, '[', 0);
    var b := CharEnd(t, '[', 0);
    assert a == b;
    if a < |s| {
      FirstClosingSameBrackets(s, t, a, a);
    }
  }

  // ---------------------------------------------------------------------------
  // The union box of detect_sliced_objects
  // ---------------------------------------------------------------------------

  /** `bbox_2d`: `[x1, y1, x2, y2]`. */
  datatype Box = Box(x1: int, y1: int, x2: int, y2: int)

  /** An entry of `result`: its label and its box. */
  datatype Detection = Detection(objectLabel: string, bbox: Box)

  /** `1e13`, the initial `x_min` and `y_min`. */
  const Far: int := 10000000000000

  function Min(a: int, b: int): int {
    if a <= b then a else b
  }

  function Max(a: int, b: int): int {
    if a >= b then a else b
  }

  /** `[x_min, y_min, x_max, y_max]` after the loop over all of `result`. */
  function UnionBox(ds: seq<Detection>): Box
    decreases |ds|
  {
    if ds == [] then Box(Far, Far, -1, -1)
    else
      var u := UnionBox(ds[..|ds| - 1]);
      var b := ds[|ds| - 1].bbox;
      Box(Min(u.x1, b.x1), Min(u.y1, b.y1), Max(u.x2, b.x2), Max(u.y2, b.y2))
  }

  /** The loop of `detect_sliced_objects` that merges every detection into one box. */
  method MergeBoxes(result: seq<Detection>) returns (xMin: int, yMin: int, xMax: int, yMax: int)
    ensures Box(xMin, yMin, xMax, yMax) == UnionBox(result)
  {
    xMin, yMin, xMax, yMax := Far, Far, -1, -1;
    for i := 0 to |result|
      invariant Box(xMin, yMin, xMax, yMax) == UnionBox(result[..i])
    {
      var bbox := result[i].bbox;
      xMin := Min(xMin, bbox.x1);
      yMin := Min(yMin, bbox.y1);
      xMax := Max(xMax, bbox.x2);
      yMax := Max(yMax, bbox.y2);
      assert result[..i + 1][..i] == result[..i];
    }
    assert result[..|result|] == result;
  }

  /**
   * The union box encloses every detection, whatever its label; each side is
   * the extreme coordinate of some detection, or the initial value when no
   * detection goes beyond it.
   */
  lemma {:induction false} UnionBoxEncloses(ds: seq<Detection>)
    ensures var u := UnionBox(ds);
            && (forall k :: 0 <= k < |ds| ==> u.x1 <= ds[k].bbox.x1 && u.y1 <= ds[k].bbox.y1)
            && (forall k :: 0 <= k < |ds| ==> u.x2 >= ds[k].bbox.x2 && u.y2 >= ds[k].bbox.y2)
            && u.x1 <= Far && u.y1 <= Far && u.x2 >= -1 && u.y2 >= -1
            && (u.x1 == Far || exists k :: 0 <= k < |ds| && u.x1 == ds[k].bbox.x1)
            && (u.y1 == Far || exists k :: 0 <= k < |ds| && u.y1 == ds[k].bbox.y1)
            && (u.x2 == -1 || exists k :: 0 <= k < |ds| && u.x2 == ds[k].bbox.x2)
            && (u.y2 == -1 || exists k :: 0 <= k < |ds| && u.y2 == ds[k].bbox.y2)
    decreases |ds|
  {
    if ds != [] {
      var init := ds[..|ds| - 1];
      UnionBoxEncloses(init);
      assert forall k :: 0 <= k < |init| ==> init[k] == ds[k];
    }
  }

  /** With no detection the box stays at the initial values. */
  lemma UnionBoxEmpty()
    ensures UnionBox([]) == Box(Far, Far, -1, -1)
  {
  }

  /** The labels play no part: only the boxes count. */
  lemma {:induction false} UnionBoxIgnoresLabels(ds: seq<Detection>, es: seq<Detection>)
    requires |ds| == |es| && forall k :: 0 <= k < |ds| ==> ds[k].bbox == es[k].bbox
    ensures UnionBox(ds) == UnionBox(es)
    decreases |ds|
  {
    if ds != [] {
      UnionBoxIgnoresLabels(ds[..|ds| - 1], es[..|es| - 1]);
    }
  }

  // ---------------------------------------------------------------------------
  // The small-box filter of get_bounding_boxes
  // ---------------------------------------------------------------------------

  /** `cv2.boundingRect`: `(x, y, width, height)`. */
  datatype Rect = Rect(x: int, y: int, w: int, h: int)

  /** A rectangle the filter keeps: `w * h > 25`. */
  predicate Large(r: Rect) {
    r.w * r.h > 25
  }

  /** `(x, y, x+w, y+h)`. */
  function Corners(r: Rect): Box {
    Box(r.x, r.y, r.x + r.w, r.y + r.h)
  }

  /** `new_boxes` after the loop. */
  function FilterSmall(boxes: seq<Rect>): seq<Box>
    decreases |boxes|
  {
    if boxes == [] then []
    else
      var last := boxes[|boxes| - 1];
      FilterSmall(boxes[..|boxes| - 1]) + (if Large(last) then [Corners(last)] else [])
  }

  /** The loop of `get_bounding_boxes` that keeps the large rectangles in corner form. */
  method RemoveSmallBoxes(boxes: seq<Rect>) returns (newBoxes: seq<Box>)
    ensures newBoxes == FilterSmall(boxes)
  {
    newBoxes := [];
    for i := 0 to |boxes|
      invariant newBoxes == FilterSmall(boxes[..i])
    {
      var r := boxes[i];
      if r.w * r.h > 25 {
        newBoxes := newBoxes + [Box(r.x, r.y, r.x + r.w, r.y + r.h)];
      }
      assert boxes[..i + 1][..i] == boxes[..i];
    }
    assert boxes[..|boxes|] == boxes;
  }

  /** The filter works box by box and keeps the input order. */
  lemma {:induction false} FilterSmallAppend(a: seq<Rect>, b: seq<Rect>)
    ensures FilterSmall(a + b) == FilterSmall(a) + FilterSmall(b)
    decreases |b|
  {
    if b == [] {
      assert a + b == a;
    } else {
      var init := b[..|b| - 1];
      assert (a + b)[..|a + b| - 1] == a + init;
      FilterSmallAppend(a, init);
    }
  }

  /**
   * The output is exactly the corner forms of the rectangles with `w * h > 25`:
   * every one of them is kept, nothing else appears, and each kept box
   * encloses more than 25 units of area.
   */
  lemma {:induction false} FilterSmallExactly(boxes: seq<Rect>)
    ensures |FilterSmall(boxes)| <= |boxes|
    ensures forall k :: 0 <= k < |boxes| && Large(boxes[k]) ==> Corners(boxes[k]) in FilterSmall(boxes)
    ensures forall b :: b in FilterSmall(boxes) ==> exists k :: 0 <= k < |boxes| && Large(boxes[k]) && b == Corners(boxes[k])
    ensures forall b :: b in FilterSmall(boxes) ==> (b.x2 - b.x1) * (b.y2 - b.y1) > 25
    decreases |boxes|
  {
    if boxes != [] {
      var init := boxes[..|boxes| - 1];
      FilterSmallExactly(init);
      assert forall k :: 0 <= k < |init| ==> init[k] == boxes[k];
    }
  }
}
