/**
 * `PDDLDomain` of `src/vilain_utils.py`: the predicates and the actions of a
 * domain text, each kept as written and as parsed, and indexed by name.
 */
module PddlDomain {
  import opened Wrappers
  import opened PyText
  import opened PyFind
  import opened PddlScan
  import opened PddlPatterns

  /** One entry of `predicates`: the matched group, its name, its arguments and the comment after it. */
  datatype Predicate = Predicate(pred: string, name: string, arguments: seq<string>, comment: string)

  /** One entry of `actions`. */
  datatype Action = Action(action: string, name: string, parameters: string, precondition: seq<string>, effect: seq<string>)

  function PredicateName(p: Predicate): string {
    p.name
  }

  function ActionName(a: Action): string {
    a.name
  }

  // ---------------------------------------------------------------------------
  // Name index: the dictionaries name2predicate and name2action
  // ---------------------------------------------------------------------------

  /** The dictionary that assigning `d[key(x)] = x` for each `x` in turn leaves. */
  function LastByName<T>(xs: seq<T>, key: T -> string): map<string, T>
    decreases |xs|
  {
    if xs == [] then map[] else LastByName(xs[..|xs| - 1], key)[key(xs[|xs| - 1]) := xs[|xs| - 1]]
  }

  /**
   * The keys are the names that occur, and each name maps to its last
   * occurrence: a later duplicate replaces an earlier one.
   */
  lemma {:induction false} LastByNameSpec<T>(xs: seq<T>, key: T -> string)
    ensures forall n :: n in LastByName(xs, key) <==> exists i :: 0 <= i < |xs| && key(xs[i]) == n
    ensures forall i :: 0 <= i < |xs| && (forall j :: i < j < |xs| ==> key(xs[j]) != key(xs[i])) ==>
              key(xs[i]) in LastByName(xs, key) && LastByName(xs, key)[key(xs[i])] == xs[i]
    decreases |xs|
  {
    if xs != [] {
      var init := xs[..|xs| - 1];
      LastByNameSpec(init, key);
      assert forall i :: 0 <= i < |init| ==> init[i] == xs[i];
    }
  }

  // ---------------------------------------------------------------------------
  // The flattened text: re.sub(r"\s+", " ", text.replace("\n", " "))
  // ---------------------------------------------------------------------------

  /** `text.replace("\n", " ")`. */
  function ReplaceNewlines(s: string): (r: string)
    ensures |r| == |s|
    ensures forall k :: 0 <= k < |s| ==> r[k] == (if s[k] == '\n' then ' ' else s[k])
  {
    seq(|s|, k requires 0 <= k < |s| => if s[k] == '\n' then ' ' else s[k])
  }

  /** `re.sub(r"\s+", " ", s)`: each maximal run of whitespace becomes one space. */
  function CollapseSpaces(s: string): (r: string)
    decreases |s|
    ensures forall k :: 0 <= k < |r| ==> IsSpace(r[k]) ==> r[k] == ' '
    ensures forall k :: 0 <= k < |r| - 1 ==> !(IsSpace(r[k]) && IsSpace(r[k + 1]))
    ensures s != [] ==> r != [] && (IsSpace(r[0]) <==> IsSpace(s[0]))
  {
    if s == [] then []
    else if IsSpace(s[0]) then " " + CollapseSpaces(s[SkipSpaces(s, 0)..])
    else [s[0]] + CollapseSpaces(s[1..])
  }

  /** `pddl_domain_flat`. */
  function Flatten(s: string): string {
    CollapseSpaces(ReplaceNewlines(s))
  }

  /** Collapsing whitespace keeps every token of `split()`, in order. */
  lemma {:induction false} CollapseSpacesSplit(s: string)
    ensures Split(CollapseSpaces(s)) == Split(s)
    decreases |s|
  {
    if s != [] {
      if IsSpace(s[0]) {
        var j := SkipSpaces(s, 0);
        CollapseSpacesSplit(s[j..]);
        SplitLeadingSpace(' ', CollapseSpaces(s[j..]));
        SplitSkipSpaces(s, 0);
      } else {
        var x := s[1..];
        CollapseSpacesSplit(x);
        assert s == [s[0]] + x;
        SplitConsChar(s[0], x);
        SplitConsChar(s[0], CollapseSpaces(x));
      }
    }
  }

  /** The flattened text has the tokens of the text, in order: only whitespace changes. */
  lemma FlattenSplit(s: string)
    ensures Split(Flatten(s)) == Split(s)
  {
    SplitSameSpaces(ReplaceNewlines(s), s);
    CollapseSpacesSplit(ReplaceNewlines(s));
  }

  /** Collapsing text that has no two whitespace characters in a row and no whitespace other than spaces keeps it. */
  lemma {:induction false} CollapseSpacesFlat(s: string)
    requires forall k :: 0 <= k < |s| ==> IsSpace(s[k]) ==> s[k] == ' '
    requires forall k :: 0 <= k < |s| - 1 ==> !(IsSpace(s[k]) && IsSpace(s[k + 1]))
    ensures CollapseSpaces(s) == s
    decreases |s|
  {
    if s != [] {
      if IsSpace(s[0]) {
        assert SkipSpaces(s, 0) == 1;
        assert s == " " + s[1..];
      } else {
        assert s == [s[0]] + s[1..];
      }
      CollapseSpacesFlat(s[1..]);
    }
  }

  /** Flattening is idempotent: the flat text is its own flattening. */
  lemma FlattenIdempotent(s: string)
    ensures Flatten(Flatten(s)) == Flatten(s)
  {
    var f := Flatten(s);
    assert ReplaceNewlines(f) == f;
    CollapseSpacesFlat(f);
  }

  // ---------------------------------------------------------------------------
  // parse_predicates
  // ---------------------------------------------------------------------------

  /** `predicate[1:-1]`. */
  function Inner(pred: string): (r: string)
    ensures |pred| >= 2 ==> r == pred[1..|pred| - 1]
    ensures |pred| < 2 ==> r == []
  {
    if |pred| >= 2 then pred[1..|pred| - 1] else []
  }

  /** `predicate_name, *arguments = predicate[1:-1].split()`, which raises ValueError when there is no token. */
  function PredicateEntry(pair: (string, string)): (r: Result<Predicate, ParseError>)
    ensures r.Success? <==> Split(Inner(pair.0)) != []
    ensures r.Success? ==> [r.value.name] + r.value.arguments == Split(Inner(pair.0))
    ensures r.Success? ==> r.value.pred == pair.0 && r.value.comment == pair.1
  {
    var toks := Split(Inner(pair.0));
    if toks == [] then Failure(Malformed(pair.0)) else Success(Predicate(pair.0, toks[0], toks[1..], pair.1))
  }

  /**
   * A loop that appends `f(x)` for each `x` and raises at the first failure:
   * it succeeds exactly when every element does, and otherwise reports the
   * error of the first element that fails.
   */
  function MapResults<A, B>(xs: seq<A>, f: A -> Result<B, ParseError>): (r: Result<seq<B>, ParseError>)
    decreases |xs|
    ensures r.Success? <==> forall k :: 0 <= k < |xs| ==> f(xs[k]).Success?
    ensures r.Success? ==> |r.value| == |xs| && forall k :: 0 <= k < |xs| ==> f(xs[k]) == Success(r.value[k])
    ensures r.Failure? ==>
      exists k :: 0 <= k < |xs| && f(xs[k]) == Failure(r.error) && forall j :: 0 <= j < k ==> f(xs[j]).Success?
  {
    if xs == [] then Success([])
    else if f(xs[0]).Failure? then Failure(f(xs[0]).error)
    else
      var rest := MapResults(xs[1..], f);
      assert forall k :: 1 <= k < |xs| ==> xs[k] == xs[1..][k - 1];
      if rest.Failure? then rest else Success([f(xs[0]).value] + rest.value)
  }

  /** `ys` holds the values of the first `|ys|` elements: the invariant of the loop. */
  predicate MappedPrefix<A, B(==)>(xs: seq<A>, f: A -> Result<B, ParseError>, ys: seq<B>) {
    |ys| <= |xs| && forall j :: 0 <= j < |ys| ==> f(xs[j]) == Success(ys[j])
  }

  lemma MappedPrefixStep<A, B>(xs: seq<A>, f: A -> Result<B, ParseError>, ys: seq<B>)
    requires MappedPrefix(xs, f, ys) && |ys| < |xs| && f(xs[|ys|]).Success?
    ensures MappedPrefix(xs, f, ys + [f(xs[|ys|]).value])
  {
  }

  /** The loop stops at the first element that fails, with its error. */
  lemma MapResultsFirstFailure<A, B>(xs: seq<A>, f: A -> Result<B, ParseError>, ys: seq<B>)
    requires MappedPrefix(xs, f, ys) && |ys| < |xs| && f(xs[|ys|]).Failure?
    ensures MapResults(xs, f) == Failure(f(xs[|ys|]).error)
  {
  }

  /** The loop that runs to the end collects every value. */
  lemma MapResultsAll<A, B>(xs: seq<A>, f: A -> Result<B, ParseError>, ys: seq<B>)
    requires MappedPrefix(xs, f, ys) && |ys| == |xs|
    ensures MapResults(xs, f) == Success(ys)
  {
    assert MapResults(xs, f).value == ys;
  }

  /** An entry of `pddl_predicates`: the comment, which keeps its own `;`, is appended after ` ; `. */
  function PredicateText(pred: string, comment: string): string {
    if |comment| > 0 then pred + " ; " + comment else pred
  }

  /** `PredicateText` of each (predicate, comment) pair; the ensures only expose the elements to callers. */
  function PredicateTexts(pairs: seq<(string, string)>): (r: seq<string>)
    ensures |r| == |pairs|
    ensures forall k :: 0 <= k < |pairs| ==> r[k] == PredicateText(pairs[k].0, pairs[k].1)
  {
    seq(|pairs|, k requires 0 <= k < |pairs| => PredicateText(pairs[k].0, pairs[k].1))
  }

  /** What `parse_predicates` sets `pddl_predicates` and `predicates` to, or why it raises. */
  function PredicatesSpec(text: string): Result<(seq<string>, seq<Predicate>), ParseError> {
    var region :- Section(PredicatesPattern, text);
    var pairs := PredicateMatches(region);
    var entries :- MapResults(pairs, PredicateEntry);
    Success((PredicateTexts(pairs), entries))
  }

  /** A predicate written `(name arg ...)` is parsed back into its name and arguments. */
  lemma PredicateEntryRoundTrip(name: string, args: seq<string>, comment: string)
    requires IsToken(name) && forall k :: 0 <= k < |args| ==> IsToken(args[k])
    ensures var pred := "(" + Join(" ", [name] + args) + ")";
            && |pred| >= 2
            && PredicateEntry((pred, comment)) == Success(Predicate(pred, name, args, comment))
  {
    var toks := [name] + args;
    var pred := "(" + Join(" ", toks) + ")";
    assert Inner(pred) == Join(" ", toks);
    SplitJoin(toks);
    assert toks[1..] == args;
  }

  /** A comment written ` ; text` is rendered with two semicolons. */
  lemma PredicateTextDoubleSemicolon(pred: string, text: string)
    ensures PredicateText(pred, " ; " + text) == pred + " ;  ; " + text
  {
  }

  // ---------------------------------------------------------------------------
  // parse_actions
  // ---------------------------------------------------------------------------

  /** `s.index(pat)`, which raises ValueError when `pat` does not occur. */
  function Index(s: string, pat: string): (r: Result<nat, ParseError>)
    ensures r.Success? <==> exists i :: OccursAt(s, pat, i)
    ensures r.Success? ==> OccursAt(s, pat, r.value) && forall j :: 0 <= j < r.value ==> !OccursAt(s, pat, j)
  {
    match Find(s, pat, 0)
    case None => Failure(NotFound(pat))
    case Some(i) => Success(i)
  }

  /** `s[i:j]` for `0 <= i, j <= |s|`: empty when `j < i`. */
  function Slice(s: string, i: nat, j: nat): (r: string)
    requires i <= |s| && j <= |s|
    ensures |r| == if i <= j then j - i else 0
  {
    if i <= j then s[i..j] else ""
  }

  const PreconditionKey: string := ":precondition"
  const EffectKey: string := ":effect"

  /**
   * The entry the loop of `parse_actions` builds for one action text: the
   * parameter group, the fragments between the first `:precondition` and the
   * first `:effect`, the fragments from the first `:effect` on, and the second
   * token of the stripped text as the name.
   */
  function ActionEntry(a: string): (r: Result<Action, ParseError>)
  {
    var parameters :- Parameters(a);
    var precStart :- Index(a, PreconditionKey);
    var precEnd :- Index(a, EffectKey);
    var precondition := PredicateFragments(Slice(a, precStart, precEnd));
    // `eff_start_idx` is `pddl_action.index(":effect")` again, so it is `prec_end_idx`.
    var effect := PredicateFragments(a[precEnd..]);
    var toks := Split(Strip(a));
    if |toks| < 2 then Failure(Malformed(a))
    else Success(Action(a, toks[1], parameters, precondition, effect))
  }

  /**
   * An action parses exactly when it has a parameter list, a `:precondition`,
   * an `:effect` and a second token; its name is the second token whether or
   * not the text is stripped, and every precondition and effect fragment is a
   * one-line group.
   */
  lemma ActionEntryShape(a: string)
    ensures ActionEntry(a).Success? <==>
      && Parameters(a).Success?
      && (exists i :: OccursAt(a, PreconditionKey, i))
      && (exists i :: OccursAt(a, EffectKey, i))
      && |Split(a)| >= 2
    ensures ActionEntry(a).Success? ==>
      var act := ActionEntry(a).value;
      && act.action == a && act.name == Split(a)[1]
      && Success(act.parameters) == Parameters(a)
      && (forall k :: 0 <= k < |act.precondition| ==> GoodFragment(act.precondition[k]))
      && (forall k :: 0 <= k < |act.effect| ==> GoodFragment(act.effect[k]))
  {
    SplitStrip(a);
    var p := Index(a, PreconditionKey);
    var e := Index(a, EffectKey);
    if p.Success? && e.Success? {
      FragmentsWellFormed(Slice(a, p.value, e.value));
      FragmentsWellFormed(a[e.value..]);
    }
  }

  /** An action written `(:action name ...` has the name `name`. */
  lemma ActionNameAfterMarker(name: string, rest: string)
    requires IsToken(name) && (rest == [] || IsSpace(rest[0]))
    ensures Split(ActionMarker + (" " + name + rest)) == [ActionMarker] + ([name] + Split(rest))
  {
    assert IsToken(ActionMarker);
    SplitTwoTokens(ActionMarker, name, rest);
  }

  /**
   * The action texts `pddl_domain[start:end]` for the bounds `get_start_end_idxs` returns;
   * the ensures only expose the elements to callers.
   */
  function ActionTexts(text: string, starts: seq<nat>, ends: seq<nat>): (r: seq<string>)
    requires |starts| == |ends|
    requires forall k :: 0 <= k < |starts| ==> starts[k] <= ends[k] <= |text|
    ensures |r| == |starts|
    ensures forall k :: 0 <= k < |starts| ==> r[k] == text[starts[k]..ends[k]]
  {
    seq(|starts|, k requires 0 <= k < |starts| => text[starts[k]..ends[k]])
  }

  /** What `parse_actions` sets `pddl_actions` and `actions` to, or why it raises. */
  function ActionsSpec(text: string): Result<(seq<string>, seq<Action>), ParseError> {
    var (starts, ends) :- StartEndIdxsSpec(text, ActionMarker);
    var texts := ActionTexts(text, starts, ends);
    var entries :- MapResults(texts, ActionEntry);
    Success((texts, entries))
  }

  /** `ActionsSpec` once the bounds and the entries are known. */
  lemma ActionsSpecIs(text: string, starts: seq<nat>, ends: seq<nat>, entries: Result<seq<Action>, ParseError>)
    requires StartEndIdxsSpec(text, ActionMarker) == Success((starts, ends))
    requires |starts| == |ends| && forall k :: 0 <= k < |starts| ==> starts[k] <= ends[k] <= |text|
    requires entries == MapResults(ActionTexts(text, starts, ends), ActionEntry)
    ensures ActionsSpec(text) ==
      if entries.Failure? then Failure(entries.error) else Success((ActionTexts(text, starts, ends), entries.value))
  {
  }

  /**
   * Every action text starts at an occurrence of `(:action` (all of them, in
   * order) and is a balanced span, and each entry is the parse of its text.
   */
  lemma ActionsSpecShape(text: string)
    requires ActionsSpec(text).Success?
    ensures var (texts, entries) := ActionsSpec(text).value;
            && |entries| == |texts|
            && (forall k :: 0 <= k < |texts| ==> BalancedSpan(texts[k], ActionMarker))
            && (forall k :: 0 <= k < |texts| ==> ActionEntry(texts[k]) == Success(entries[k]))
  {
    ActionMarkerPlain();
    StartEndIdxsShape(text, ActionMarker);
  }

  // ---------------------------------------------------------------------------
  // The class
  // ---------------------------------------------------------------------------

  /** What the constructor of `PDDLDomain` leaves in the object, or why it raises. */
  function DomainSpec(text: string): Result<(seq<string>, seq<Predicate>, seq<string>, seq<Action>), ParseError> {
    var (pddlPredicates, predicates) :- PredicatesSpec(text);
    var (pddlActions, actions) :- ActionsSpec(text);
    Success((pddlPredicates, predicates, pddlActions, actions))
  }

  class Domain {
    const pddlDomain: string
    const pddlDomainFlat: string
    var pddlPredicates: seq<string>
    var predicates: seq<Predicate>
    var name2predicate: map<string, Predicate>
    var pddlActions: seq<string>
    var actions: seq<Action>
    var name2action: map<string, Action>

    /** The fields before parsing (`None` in the Python object, empty here). */
    constructor Init(text: string)
      ensures pddlDomain == text && pddlDomainFlat == Flatten(text)
      ensures pddlPredicates == [] && predicates == [] && name2predicate == map[]
      ensures pddlActions == [] && actions == [] && name2action == map[]
    {
      pddlDomain := text;
      pddlDomainFlat := Flatten(text);
      pddlPredicates := [];
      predicates := [];
      name2predicate := map[];
      pddlActions := [];
      actions := [];
      name2action := map[];
    }

    /** `parse_predicates`; on failure the fields are left as they were. */
    method ParsePredicates() returns (error: Option<ParseError>)
      modifies this`pddlPredicates, this`predicates, this`name2predicate
      ensures PredicatesSpec(pddlDomain) == if error.Some? then Failure(error.value) else Success((pddlPredicates, predicates))
      ensures error.Some? ==> pddlPredicates == old(pddlPredicates) && predicates == old(predicates) && name2predicate == old(name2predicate)
      ensures error.None? ==> name2predicate == LastByName(predicates, PredicateName)
    {
      var region := Section(PredicatesPattern, pddlDomain);
      if region.Failure? {
        return Some(region.error);
      }
      var pairs := PredicateMatches(region.value);
      var entries := ParsePredicateEntries(pairs);
      if entries.Failure? {
        return Some(entries.error);
      }
      pddlPredicates := PredicateTexts(pairs);
      predicates := entries.value;
      name2predicate := IndexByName(entries.value, PredicateName);
      return None;
    }

    /** `parse_actions`; on failure the fields are left as they were. */
    method ParseActions() returns (error: Option<ParseError>)
      modifies this`pddlActions, this`actions, this`name2action
      ensures ActionsSpec(pddlDomain) == if error.Some? then Failure(error.value) else Success((pddlActions, actions))
      ensures error.Some? ==> pddlActions == old(pddlActions) && actions == old(actions) && name2action == old(name2action)
      ensures error.None? ==> name2action == LastByName(actions, ActionName)
    {
      var parsed := ParseActionList(pddlDomain);
      if parsed.Failure? {
        return Some(parsed.error);
      }
      pddlActions := parsed.value.0;
      actions := parsed.value.1;
      name2action := IndexByName(actions, ActionName);
      return None;
    }
  }

  /** The work of `parse_actions` before it stores anything: cut out the action texts and parse each one. */
  method ParseActionList(text: string) returns (r: Result<(seq<string>, seq<Action>), ParseError>)
    ensures r == ActionsSpec(text)
  {
    var idxs := StartEndIdxs(text, ActionMarker);
    if idxs.Failure? {
      return Failure(idxs.error);
    }
    ActionMarkerPlain();
    StartEndIdxsShape(text, ActionMarker);
    var texts := CutActions(text, idxs.value.0, idxs.value.1);
    var entries := ParseActionEntries(texts);
    ActionsSpecIs(text, idxs.value.0, idxs.value.1, entries);
    if entries.Failure? {
      return Failure(entries.error);
    }
    return Success((texts, entries.value));
  }

  /** The loop of `parse_predicates` that splits each matched group. */
  method ParsePredicateEntries(pairs: seq<(string, string)>) returns (r: Result<seq<Predicate>, ParseError>)
    ensures r == MapResults(pairs, PredicateEntry)
  {
    var entries: seq<Predicate> := [];
    for i := 0 to |pairs|
      invariant |entries| == i
      invariant MappedPrefix(pairs, PredicateEntry, entries)
    {
      var (pred, comment) := pairs[i];
      var toks := Split(Inner(pred));
      if toks == [] {
        MapResultsFirstFailure(pairs, PredicateEntry, entries);
        return Failure(Malformed(pred));
      }
      MappedPrefixStep(pairs, PredicateEntry, entries);
      entries := entries + [Predicate(pred, toks[0], toks[1..], comment)];
    }
    MapResultsAll(pairs, PredicateEntry, entries);
    return Success(entries);
  }

  /** The loop that fills `name2predicate` or `name2action`. */
  method IndexByName<T>(xs: seq<T>, key: T -> string) returns (byName: map<string, T>)
    ensures byName == LastByName(xs, key)
  {
    byName := map[];
    for i := 0 to |xs|
      invariant byName == LastByName(xs[..i], key)
    {
      assert xs[..i + 1][..i] == xs[..i];
      byName := byName[key(xs[i]) := xs[i]];
    }
    assert xs[..|xs|] == xs;
  }

  /** The loop over `zip(start_idxs, end_idxs)` that cuts out `pddl_actions`. */
  method CutActions(text: string, starts: seq<nat>, ends: seq<nat>) returns (texts: seq<string>)
    requires |starts| == |ends|
    requires forall k :: 0 <= k < |starts| ==> starts[k] <= ends[k] <= |text|
    ensures texts == ActionTexts(text, starts, ends)
  {
    texts := [];
    for k := 0 to |starts|
      invariant |texts| == k
      invariant forall j :: 0 <= j < k ==> texts[j] == text[starts[j]..ends[j]]
    {
      texts := texts + [text[starts[k]..ends[k]]];
    }
  }

  /** The loop of `parse_actions` that parses each action text. */
  method ParseActionEntries(texts: seq<string>) returns (r: Result<seq<Action>, ParseError>)
    ensures r == MapResults(texts, ActionEntry)
  {
    var entries: seq<Action> := [];
    for k := 0 to |texts|
      invariant |entries| == k
      invariant MappedPrefix(texts, ActionEntry, entries)
    {
      var entry := ParseAction(texts[k]);
      if entry.Failure? {
        MapResultsFirstFailure(texts, ActionEntry, entries);
        return Failure(entry.error);
      }
      MappedPrefixStep(texts, ActionEntry, entries);
      entries := entries + [entry.value];
    }
    MapResultsAll(texts, ActionEntry, entries);
    return Success(entries);
  }

  /** The body of the loop over `pddl_actions`, with `extract_predicates` run as its loop. */
  method ParseAction(a: string) returns (r: Result<Action, ParseError>)
    ensures r == ActionEntry(a)
  {
    var parameters := Parameters(a);
    if parameters.Failure? {
      return Failure(parameters.error);
    }
    var precStart := Index(a, PreconditionKey);
    if precStart.Failure? {
      return Failure(precStart.error);
    }
    var precEnd := Index(a, EffectKey);
    if precEnd.Failure? {
      return Failure(precEnd.error);
    }
    var precondition := ExtractPredicates(Slice(a, precStart.value, precEnd.value));
    var effStart := Index(a, EffectKey);
    var effect := ExtractPredicates(a[effStart.value..]);
    var toks := Split(Strip(a));
    if |toks| < 2 {
      return Failure(Malformed(a));
    }
    return Success(Action(a, toks[1], parameters.value, precondition, effect));
  }

  /** The constructor of `PDDLDomain`: record the text, then parse the predicates and the actions. */
  method NewDomain(text: string) returns (r: Result<Domain, ParseError>)
    ensures DomainSpec(text) ==
      if r.Failure? then Failure(r.error)
      else Success((r.value.pddlPredicates, r.value.predicates, r.value.pddlActions, r.value.actions))
    ensures r.Success? ==>
      && fresh(r.value)
      && r.value.pddlDomain == text && r.value.pddlDomainFlat == Flatten(text)
      && r.value.name2predicate == LastByName(r.value.predicates, PredicateName)
      && r.value.name2action == LastByName(r.value.actions, ActionName)
  {
    var d := new Domain.Init(text);
    var error := d.ParsePredicates();
    if error.Some? {
      return Failure(error.value);
    }
    error := d.ParseActions();
    if error.Some? {
      return Failure(error.value);
    }
    return Success(d);
  }
}
