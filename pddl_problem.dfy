/**
 * `PDDLProblem` of `src/vilain_utils.py`: the objects, the initial state and
 * the goal of a problem text, each kept as the matched region and as a list.
 */
module PddlProblem {
  import opened Wrappers
  import opened PyText
  import opened PddlScan
  import opened PddlPatterns

  // ---------------------------------------------------------------------------
  // parse_objects
  // ---------------------------------------------------------------------------

  /** `_type.strip().split(";")[0]`. */
  function CleanType(t: string): string {
    SplitOn(Strip(t), ';')[0]
  }

  /** The type matched by `\w+` is already clean: stripping it and cutting at `;` keeps it. */
  lemma CleanTypeWord(w: string)
    requires IsWord(w)
    ensures CleanType(w) == w
  {
    assert LStrip(w) == w;
    assert RStrip(w) == w;
    assert CharEnd(w, ';', 0) == |w| by {
      assert forall k :: 0 <= k < |w| ==> w[k] != ';';
    }
  }

  /** `f"{obj} - {_type}"`. */
  function ObjectEntry(obj: string, t: string): string {
    obj + " - " + t
  }

  /** The entries of one group, one per whitespace-separated symbol of `objs.strip()`, in order. */
  function GroupEntries(objs: string, t: string): (r: seq<string>)
    ensures |r| == |Split(objs)|
    ensures forall k :: 0 <= k < |r| ==> r[k] == ObjectEntry(Split(objs)[k], CleanType(t))
  {
    var toks := Split(Strip(objs));
    SplitStrip(objs);
    seq(|toks|, k requires 0 <= k < |toks| => ObjectEntry(toks[k], CleanType(t)))
  }

  /** The entries of all groups, group after group. */
  function ObjectEntries(groups: seq<(string, string)>): seq<string>
    decreases |groups|
  {
    if groups == [] then []
    else ObjectEntries(groups[..|groups| - 1]) + GroupEntries(groups[|groups| - 1].0, groups[|groups| - 1].1)
  }

  /** Flattening distributes over concatenation of the group lists. */
  lemma {:induction false} ObjectEntriesAppend(g1: seq<(string, string)>, g2: seq<(string, string)>)
    ensures ObjectEntries(g1 + g2) == ObjectEntries(g1) + ObjectEntries(g2)
    decreases |g2|
  {
    if g2 != [] {
      var init := g2[..|g2| - 1];
      assert (g1 + g2)[..|g1 + g2| - 1] == g1 + init;
      ObjectEntriesAppend(g1, init);
    } else {
      assert g1 + g2 == g1;
    }
  }

  /** An entry reads back as the symbol, a dash and the type. */
  lemma ObjectEntrySplit(obj: string, t: string)
    requires IsToken(obj) && IsWord(t)
    ensures Split(ObjectEntry(obj, t)) == [obj, "-", t]
  {
    assert IsToken(t) by {
      assert forall k :: 0 <= k < |t| ==> IsWordChar(t[k]) && !IsSpace(t[k]);
    }
    SplitSpaceToken(t, []);
    assert " " + t + [] == " " + t;
    SplitTwoTokens(obj, "-", " " + t);
    assert obj + " - " + t == obj + (" " + "-" + (" " + t));
    assert [obj] + (["-"] + ([t] + Split([]))) == [obj, "-", t];
  }

  /**
   * Each group `syms - T` becomes one `sym - T` entry per symbol, in order, and
   * each entry reads back as `[sym, "-", T]`.
   */
  lemma GroupEntriesShape(objs: string, t: string)
    requires IsWord(t)
    ensures forall k :: 0 <= k < |Split(objs)| ==>
      GroupEntries(objs, t)[k] == ObjectEntry(Split(objs)[k], t)
      && Split(GroupEntries(objs, t)[k]) == [Split(objs)[k], "-", t]
  {
    CleanTypeWord(t);
    var toks := Split(objs);
    forall k | 0 <= k < |toks|
      ensures Split(ObjectEntry(toks[k], t)) == [toks[k], "-", t]
    {
      ObjectEntrySplit(toks[k], t);
    }
  }

  /** What `parse_objects` sets `pddl_objects` and `objects` to, or why it raises. */
  function ObjectsSpec(text: string): Result<(string, seq<string>), ParseError> {
    var region :- Section(ObjectsPattern, text);
    Success((region, ObjectEntries(ObjectGroups(region))))
  }

  // ---------------------------------------------------------------------------
  // parse_initial_state and parse_goal
  // ---------------------------------------------------------------------------

  /** What `parse_initial_state` or `parse_goal` sets its two fields to, or why it raises. */
  function StateSpec(pt: SectionPattern, text: string): Result<(string, seq<string>), ParseError> {
    var region :- Section(pt, StripComments(text));
    Success((region, ParenGroups(region)))
  }

  /** No group of `(\(.*?\))` contains a character the text does not. */
  lemma {:induction false} ParenGroupsAvoid(s: string, c: char)
    requires c !in s
    ensures forall k :: 0 <= k < |ParenGroups(s)| ==> c !in ParenGroups(s)[k]
    decreases |s|
  {
    if s != [] {
      assert c !in s[1..];
      if s[0] == '(' && CloseOnLine(s, 1).Some? {
        var j := CloseOnLine(s, 1).value;
        assert c !in s[..j + 1];
        assert c !in s[j + 1..];
        ParenGroupsAvoid(s[j + 1..], c);
      } else {
        ParenGroupsAvoid(s[1..], c);
      }
    }
  }

  /**
   * Comments never reach the initial state or the goal: the region and every
   * condition are free of `;`, and every condition is a one-line `(...)` group.
   */
  lemma StateSpecNoComments(pt: SectionPattern, text: string)
    requires StateSpec(pt, text).Success?
    ensures ';' !in StateSpec(pt, text).value.0
    ensures forall k :: 0 <= k < |StateSpec(pt, text).value.1| ==>
      var g := StateSpec(pt, text).value.1[k]; ';' !in g && SimpleGroup(g)
  {
    var region := Section(pt, StripComments(text)).value;
    SectionInText(pt, StripComments(text));
    assert ';' !in region;
    ParenGroupsAvoid(region, ';');
  }

  /** The region `Section` returns is a slice of its input. */
  lemma SectionInText(pt: SectionPattern, s: string)
    requires Section(pt, s).Success?
    ensures forall c :: c in Section(pt, s).value ==> c in s
  {
  }

  // ---------------------------------------------------------------------------
  // The class
  // ---------------------------------------------------------------------------

  /** What the constructor of `PDDLProblem` leaves in the object, or why it raises. */
  function ProblemSpec(text: string): Result<((string, seq<string>), (string, seq<string>), (string, seq<string>)), ParseError> {
    var objects :- ObjectsSpec(text);
    var init :- StateSpec(InitPattern, text);
    var goal :- StateSpec(GoalPattern, text);
    Success((objects, init, goal))
  }

  class Problem {
    const pddlProblem: string
    var pddlObjects: string
    var objects: seq<string>
    var pddlInitialState: string
    var initialState: seq<string>
    var pddlGoal: string
    var goalConditions: seq<string>

    /** The fields before parsing (`None` in the Python object, empty here). */
    constructor Init(text: string)
      ensures pddlProblem == text
      ensures pddlObjects == [] && objects == []
      ensures pddlInitialState == [] && initialState == []
      ensures pddlGoal == [] && goalConditions == []
    {
      pddlProblem := text;
      pddlObjects := [];
      objects := [];
      pddlInitialState := [];
      initialState := [];
      pddlGoal := [];
      goalConditions := [];
    }

    /** `parse_objects`; on failure the fields are left as they were. */
    method ParseObjects() returns (error: Option<ParseError>)
      modifies this`pddlObjects, this`objects
      ensures ObjectsSpec(pddlProblem) == if error.Some? then Failure(error.value) else Success((pddlObjects, objects))
      ensures error.Some? ==> pddlObjects == old(pddlObjects) && objects == old(objects)
    {
      var region := Section(ObjectsPattern, pddlProblem);
      if region.Failure? {
        return Some(region.error);
      }
      var entries := FlattenObjects(ObjectGroups(region.value));
      pddlObjects := region.value;
      objects := entries;
      return None;
    }

    /** `parse_initial_state`; on failure the fields are left as they were. */
    method ParseInitialState() returns (error: Option<ParseError>)
      modifies this`pddlInitialState, this`initialState
      ensures StateSpec(InitPattern, pddlProblem) ==
        if error.Some? then Failure(error.value) else Success((pddlInitialState, initialState))
      ensures error.Some? ==> pddlInitialState == old(pddlInitialState) && initialState == old(initialState)
    {
      var region := Section(InitPattern, StripComments(pddlProblem));
      if region.Failure? {
        return Some(region.error);
      }
      pddlInitialState := region.value;
      initialState := ParenGroups(region.value);
      return None;
    }

    /** `parse_goal`; on failure the fields are left as they were. */
    method ParseGoal() returns (error: Option<ParseError>)
      modifies this`pddlGoal, this`goalConditions
      ensures StateSpec(GoalPattern, pddlProblem) ==
        if error.Some? then Failure(error.value) else Success((pddlGoal, goalConditions))
      ensures error.Some? ==> pddlGoal == old(pddlGoal) && goalConditions == old(goalConditions)
    {
      var region := Section(GoalPattern, StripComments(pddlProblem));
      if region.Failure? {
        return Some(region.error);
      }
      pddlGoal := region.value;
      goalConditions := ParenGroups(region.value);
      return None;
    }
  }

  /** The two nested loops of `parse_objects` that append one entry per symbol. */
  method FlattenObjects(groups: seq<(string, string)>) returns (entries: seq<string>)
    ensures entries == ObjectEntries(groups)
  {
    entries := [];
    for i := 0 to |groups|
      invariant entries == ObjectEntries(groups[..i])
    {
      var (objs, t) := groups[i];
      var clean := CleanType(t);
      var syms := Split(Strip(objs));
      ghost var before := entries;
      for j := 0 to |syms|
        invariant entries == before + GroupEntries(objs, t)[..j]
      {
        entries := entries + [ObjectEntry(syms[j], clean)];
        assert GroupEntries(objs, t)[..j + 1] == GroupEntries(objs, t)[..j] + [ObjectEntry(syms[j], clean)] by {
          SplitStrip(objs);
        }
      }
      assert GroupEntries(objs, t)[..|syms|] == GroupEntries(objs, t) by {
        SplitStrip(objs);
      }
      assert groups[..i + 1][..i] == groups[..i];
    }
    assert groups[..|groups|] == groups;
  }

  /** The constructor of `PDDLProblem`: record the text, then parse the objects, the initial state and the goal. */
  method NewProblem(text: string) returns (r: Result<Problem, ParseError>)
    ensures ProblemSpec(text) == if r.Failure? then Failure(r.error)
      else Success(((r.value.pddlObjects, r.value.objects),
                    (r.value.pddlInitialState, r.value.initialState),
                    (r.value.pddlGoal, r.value.goalConditions)))
    ensures r.Success? ==> fresh(r.value) && r.value.pddlProblem == text
  {
    var p := new Problem.Init(text);
    var error := p.ParseObjects();
    if error.Some? {
      ProblemSpecSteps(text);
      return Failure(error.value);
    }
    ghost var objects := (p.pddlObjects, p.objects);
    error := p.ParseInitialState();
    if error.Some? {
      ProblemSpecSteps(text);
      return Failure(error.value);
    }
    ghost var init := (p.pddlInitialState, p.initialState);
    error := p.ParseGoal();
    if error.Some? {
      ProblemSpecSteps(text);
      return Failure(error.value);
    }
    ProblemSpecSteps(text);
    assert ObjectsSpec(text) == Success(objects);
    assert StateSpec(InitPattern, text) == Success(init);
    return Success(p);
  }

  /** `ProblemSpec` step by step: the first of the three parts that fails decides the error. */
  lemma ProblemSpecSteps(text: string)
    ensures ObjectsSpec(text).Failure? ==> ProblemSpec(text) == Failure(ObjectsSpec(text).error)
    ensures ObjectsSpec(text).Success? && StateSpec(InitPattern, text).Failure? ==>
      ProblemSpec(text) == Failure(StateSpec(InitPattern, text).error)
    ensures ObjectsSpec(text).Success? && StateSpec(InitPattern, text).Success? && StateSpec(GoalPattern, text).Failure? ==>
      ProblemSpec(text) == Failure(StateSpec(GoalPattern, text).error)
    ensures ObjectsSpec(text).Success? && StateSpec(InitPattern, text).Success? && StateSpec(GoalPattern, text).Success? ==>
      ProblemSpec(text) == Success((ObjectsSpec(text).value, StateSpec(InitPattern, text).value, StateSpec(GoalPattern, text).value))
  {
  }
}
