/**
 * The `convert_*` functions of `src/vilain_utils.py`, which render bounding
 * boxes, predicates and actions as text for a prompt.
 */
module PddlRender {
  import opened Wrappers
  import opened PyText
  import opened PddlDomain

  /** `f"- {key}: {value}"`. */
  function BulletLine(key: string, value: string): string {
    "- " + key + ": " + value
  }

  /** One line back into its key and value: the key ends at the first `:`. */
  function ReadBulletLine(line: string): (r: Option<(string, string)>)
    ensures r.Some? ==> BulletLine(r.value.0, r.value.1) == line && ':' !in r.value.0
  {
    if |line| >= 2 && line[..2] == "- " then
      var j := CharEnd(line, ':', 2);
      if j + 1 < |line| && line[j + 1] == ' ' then
        assert forall c :: c in line[2..j] ==> c != ':';
        assert line == line[..2] + line[2..j] + ": " + line[j + 2..];
        Some((line[2..j], line[j + 2..]))
      else None
    else None
  }

  /** A line whose key has no `:` reads back as the key and the value. */
  lemma BulletLineRoundTrip(key: string, value: string)
    requires ':' !in key
    ensures ReadBulletLine(BulletLine(key, value)) == Some((key, value))
  {
    var line := BulletLine(key, value);
    assert line[..2] == "- ";
    assert forall k :: 2 <= k < 2 + |key| ==> line[k] == key[k - 2];
    assert line[2 + |key|] == ':';
    assert CharEnd(line, ':', 2) == 2 + |key|;
    assert line[2..2 + |key|] == key;
    assert line[2 + |key| + 2..] == value;
  }

  /** `BulletLine` of each (key, value) pair; the ensures only expose the elements to callers. */
  function BulletLines(pairs: seq<(string, string)>): (r: seq<string>)
    ensures |r| == |pairs|
    ensures forall k :: 0 <= k < |pairs| ==> r[k] == BulletLine(pairs[k].0, pairs[k].1)
  {
    seq(|pairs|, k requires 0 <= k < |pairs| => BulletLine(pairs[k].0, pairs[k].1))
  }

  /** `"\n".join(f"- {key}: {value}" for key, value in pairs)`. */
  function RenderBullets(pairs: seq<(string, string)>): string {
    Join("\n", BulletLines(pairs))
  }

  /** The pairs of a rendered list, or `None` when a line is not a bullet line. */
  function ReadBullets(text: string): Option<seq<(string, string)>> {
    if text == [] then Some([]) else ReadBulletLines(SplitOn(text, '\n'))
  }

  function ReadBulletLines(lines: seq<string>): (r: Option<seq<(string, string)>>)
    decreases |lines|
    ensures r.Some? ==> |r.value| == |lines|
  {
    if lines == [] then Some([])
    else
      match ReadBulletLine(lines[0])
      case None => None
      case Some(p) =>
        match ReadBulletLines(lines[1..])
        case None => None
        case Some(rest) => Some([p] + rest)
  }

  lemma {:induction false} ReadBulletLinesRoundTrip(pairs: seq<(string, string)>)
    requires forall k :: 0 <= k < |pairs| ==> ':' !in pairs[k].0
    ensures ReadBulletLines(BulletLines(pairs)) == Some(pairs)
    decreases |pairs|
  {
    if pairs != [] {
      var lines := BulletLines(pairs);
      BulletLineRoundTrip(pairs[0].0, pairs[0].1);
      assert ReadBulletLine(lines[0]) == Some(pairs[0]);
      assert lines[1..] == BulletLines(pairs[1..]);
      ReadBulletLinesRoundTrip(pairs[1..]);
      assert [pairs[0]] + pairs[1..] == pairs;
    }
  }

  /**
   * Reading a rendered list gives the pairs back, provided no key contains a
   * `:` or a newline and no value contains a newline.
   */
  lemma RenderBulletsRoundTrip(pairs: seq<(string, string)>)
    requires forall k :: 0 <= k < |pairs| ==> ':' !in pairs[k].0 && '\n' !in pairs[k].0 && '\n' !in pairs[k].1
    ensures ReadBullets(RenderBullets(pairs)) == Some(pairs)
  {
    var lines := BulletLines(pairs);
    if pairs != [] {
      assert |lines[0]| >= 2;
      JoinSlice("\n", lines, 0);
      assert RenderBullets(pairs) != [];
      assert forall k :: 0 <= k < |lines| ==> '\n' !in lines[k];
      SplitOnJoin(lines, '\n');
    }
    ReadBulletLinesRoundTrip(pairs);
  }

  // ---------------------------------------------------------------------------
  // convert_bboxes, convert_predicates, convert_actions
  // ---------------------------------------------------------------------------

  /**
   * `convert_bboxes`: one line per box. The coordinates are given as the text
   * Python prints for the coordinate list.
   */
  function ConvertBboxes(bboxes: seq<(string, string)>): string {
    RenderBullets(bboxes)
  }

  /** Boxes whose names have no `:` or newline, and whose coordinates have no newline, are read back from the text. */
  lemma ConvertBboxesRoundTrip(bboxes: seq<(string, string)>)
    requires forall k :: 0 <= k < |bboxes| ==> ':' !in bboxes[k].0 && '\n' !in bboxes[k].0 && '\n' !in bboxes[k].1
    ensures ReadBullets(ConvertBboxes(bboxes)) == Some(bboxes)
  {
    RenderBulletsRoundTrip(bboxes);
  }

  /** The (predicate, comment) pair of each entry of `predicates`; the ensures only expose the elements to callers. */
  function PredicatePairs(preds: seq<Predicate>): (r: seq<(string, string)>)
    ensures |r| == |preds|
    ensures forall k :: 0 <= k < |preds| ==> r[k] == (preds[k].pred, preds[k].comment)
  {
    seq(|preds|, k requires 0 <= k < |preds| => (preds[k].pred, preds[k].comment))
  }

  /** `convert_predicates`: one line per predicate, the group then its comment. */
  function ConvertPredicates(d: Domain): string
    reads d
  {
    RenderBullets(PredicatePairs(d.predicates))
  }

  /** Each predicate and its comment are read back from the text, in order. */
  lemma ConvertPredicatesRoundTrip(d: Domain)
    requires forall k :: 0 <= k < |d.predicates| ==>
      ':' !in d.predicates[k].pred && '\n' !in d.predicates[k].pred && '\n' !in d.predicates[k].comment
    ensures ReadBullets(ConvertPredicates(d)) == Some(PredicatePairs(d.predicates))
  {
    RenderBulletsRoundTrip(PredicatePairs(d.predicates));
  }

  /** `convert_actions`: the action texts joined by newlines. */
  function ConvertActions(d: Domain): string
    reads d
  {
    Join("\n", d.pddlActions)
  }

  /** Every action text appears verbatim in the output, each after the previous one and a newline. */
  lemma ConvertActionsContains(d: Domain, k: nat)
    requires k < |d.pddlActions|
    ensures var o := JoinOffset("\n", d.pddlActions, k);
            o + |d.pddlActions[k]| <= |ConvertActions(d)|
            && ConvertActions(d)[o..o + |d.pddlActions[k]|] == d.pddlActions[k]
  {
    JoinSlice("\n", d.pddlActions, k);
  }
}
