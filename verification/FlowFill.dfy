/**
 The slot check of the rate-limit validator: a depth-first search through named flows that may
 refer to each other in cycles, with one visited set shared by the whole search.
 */
module FlowFill {

  /** One step of a flow: its output alias, nested steps, and the named flows it may continue in. */
  datatype Step = Step(alias: string, nested: seq<Step>, flowName: string, thenFlow: string, elseFlow: string,
                       cases: map<string, string>)

  type Flow = seq<Step>
  type Fragments = map<string, Flow>

  // ---------- what "fills the slot" means ----------

  /** Some step of the flow, nested ones included, has the slot as its alias. */
  ghost predicate FillsInline(flow: Flow, slot: string)
    decreases flow
  {
    exists k :: 0 <= k < |flow| && (flow[k].alias == slot || FillsInline(flow[k].nested, slot))
  }

  /** The named flows a single step refers to and that exist. */
  ghost predicate RefersTo(step: Step, fragments: Fragments, name: string) {
    name != "" && name in fragments
        && (name == step.flowName || name == step.thenFlow || name == step.elseFlow || name in step.cases.Values)
  }

  /** Some step of the flow, nested ones included, refers to the named flow. */
  ghost predicate Mentions(flow: Flow, fragments: Fragments, name: string)
    decreases flow
  {
    exists k :: 0 <= k < |flow| && (RefersTo(flow[k], fragments, name) || Mentions(flow[k].nested, fragments, name))
  }

  /** Following the names one after the other, each mentioned by the flow before, ends in a flow that fills the slot. */
  ghost predicate FillsVia(flow: Flow, fragments: Fragments, slot: string, names: seq<string>)
    decreases |names|
  {
    if names == [] then FillsInline(flow, slot)
    else
      && names[0] in fragments && Mentions(flow, fragments, names[0])
      && FillsVia(fragments[names[0]], fragments, slot, names[1..])
  }

  /** Some step reachable from the flow through any number of references fills the slot. */
  ghost predicate Fills(flow: Flow, fragments: Fragments, slot: string) {
    exists names :: FillsVia(flow, fragments, slot, names)
  }

  // ---------- closed sets of visited names ----------

  /** The named flow is settled: it does not fill the slot, and all it mentions is in the set. */
  ghost predicate Settled(fragments: Fragments, slot: string, name: string, visited: set<string>) {
    && name in fragments && !FillsInline(fragments[name], slot)
    && forall n :: Mentions(fragments[name], fragments, n) ==> n in visited
  }

  /** Nothing that fills the slot can be reached from a set all of whose names are settled in it. */
  lemma {:induction false} SettledNeverFills(flow: Flow, fragments: Fragments, slot: string, visited: set<string>,
      names: seq<string>)
    requires !FillsInline(flow, slot) && forall n :: Mentions(flow, fragments, n) ==> n in visited
    requires forall n :: n in visited ==> Settled(fragments, slot, n, visited)
    ensures !FillsVia(flow, fragments, slot, names)
    decreases |names|
  {
    hide FillsInline, Mentions;
    if names != [] && Mentions(flow, fragments, names[0]) {
      assert Settled(fragments, slot, names[0], visited);
      SettledNeverFills(fragments[names[0]], fragments, slot, visited, names[1..]);
    }
  }

  lemma FillsAtOnce(flow: Flow, fragments: Fragments, slot: string)
    requires FillsInline(flow, slot)
    ensures Fills(flow, fragments, slot)
  {
    assert FillsVia(flow, fragments, slot, []);
  }

  /** What a mentioned flow reaches, the flow reaches. */
  lemma FillsThrough(flow: Flow, fragments: Fragments, slot: string, name: string)
    requires name in fragments && Mentions(flow, fragments, name) && Fills(fragments[name], fragments, slot)
    ensures Fills(flow, fragments, slot)
  {
    hide Mentions, FillsInline;
    var names :| FillsVia(fragments[name], fragments, slot, names);
    assert ([name] + names)[1..] == names;
    assert FillsVia(flow, fragments, slot, [name] + names);
  }

  lemma MentionedByStep(flow: Flow, fragments: Fragments, k: nat, name: string)
    requires k < |flow| && RefersTo(flow[k], fragments, name)
    ensures Mentions(flow, fragments, name)
  {}

  lemma EmptyFlow(fragments: Fragments, slot: string)
    ensures !FillsInline([], slot) && forall n :: !Mentions([], fragments, n)
  {}

  /** What nested steps reach, the flow reaches. */
  lemma FillsNested(flow: Flow, fragments: Fragments, slot: string, k: nat)
    requires k < |flow| && Fills(flow[k].nested, fragments, slot)
    ensures Fills(flow, fragments, slot)
  {
    var names :| FillsVia(flow[k].nested, fragments, slot, names);
    assert FillsVia(flow, fragments, slot, names);
  }

  /** Everything visited from one moment to the next is settled at the later one. */
  ghost predicate Between(fragments: Fragments, slot: string, before: set<string>, after: set<string>) {
    before <= after && forall n :: n in after && n !in before ==> Settled(fragments, slot, n, after)
  }

  lemma NothingNew(fragments: Fragments, slot: string, visited: set<string>)
    ensures Between(fragments, slot, visited, visited)
  {}

  lemma Compose(fragments: Fragments, slot: string, a: set<string>, b: set<string>, c: set<string>)
    requires Between(fragments, slot, a, b) && Between(fragments, slot, b, c)
    ensures Between(fragments, slot, a, c)
  {
    hide FillsInline, Mentions;
  }

  /** A flow marked as visited first and searched without a find is settled with everything found on the way. */
  lemma SettleOne(fragments: Fragments, slot: string, before: set<string>, ref: string, after: set<string>)
    requires Between(fragments, slot, before + {ref}, after) && ref in fragments && !FillsInline(fragments[ref], slot)
    requires forall n :: Mentions(fragments[ref], fragments, n) ==> n in after
    ensures Between(fragments, slot, before, after)
  {
    hide FillsInline, Mentions;
  }

  // ---------- the search ----------

  class Search {
    const fragments: Fragments
    const slot: string
    var visited: set<string>

    constructor (named: Fragments, slotName: string)
      ensures fragments == named && slot == slotName && visited == {}
    {
      fragments, slot, visited := named, slotName, {};
    }

    ghost predicate Valid()
      reads this
    {
      visited <= fragments.Keys
    }

    /** Follows one reference unless it is empty, visited or unknown. */
    method Follow(ref: string, ghost from: Flow) returns (found: bool)
      requires Valid()
      modifies this
      ensures Valid()
      ensures found ==> ref != "" && ref in fragments && Fills(fragments[ref], fragments, slot)
      ensures !found ==> Between(fragments, slot, old(visited), visited)
      ensures !found && ref != "" && ref in fragments ==> ref in visited
      ensures old(visited) <= visited
      decreases fragments.Keys - visited, from, 0
    {
      hide Between, Fills, Mentions, FillsInline;
      NothingNew(fragments, slot, visited);
      if ref == "" || ref in visited {
        return false;
      }
      if ref !in fragments {
        return false;
      }
      visited := visited + {ref};
      found := Walk(fragments[ref]);
      if !found {
        SettleOne(fragments, slot, old(visited), ref, visited);
      }
    }

    /** Searches a list of steps; false means that everything it leads to is visited and settled. */
    method Walk(flow: Flow) returns (found: bool)
      requires Valid()
      modifies this
      ensures Valid()
      ensures found ==> Fills(flow, fragments, slot)
      ensures !found ==> !FillsInline(flow, slot) && Between(fragments, slot, old(visited), visited)
      ensures !found ==> forall n :: Mentions(flow, fragments, n) ==> n in visited
      ensures old(visited) <= visited
      decreases fragments.Keys - visited, flow, 3
    {
      hide Between, Fills;
      NothingNew(fragments, slot, visited);
      for k := 0 to |flow|
        invariant Valid() && Between(fragments, slot, old(visited), visited) && old(visited) <= visited
        invariant forall m :: 0 <= m < k ==> flow[m].alias != slot && !FillsInline(flow[m].nested, slot)
        invariant forall m, n :: 0 <= m < k && RefersTo(flow[m], fragments, n) ==> n in visited
        invariant forall m, n :: 0 <= m < k && Mentions(flow[m].nested, fragments, n) ==> n in visited
      {
        ghost var before := visited;
        found := WalkStep(flow, k);
        if found {
          return true;
        }
        Compose(fragments, slot, old(visited), before, visited);
      }
      return false;
    }

    /** One step: its alias, its nested steps, its three references, its cases. */
    method WalkStep(flow: Flow, k: nat) returns (found: bool)
      requires Valid() && k < |flow|
      modifies this
      ensures Valid()
      ensures found ==> Fills(flow, fragments, slot)
      ensures !found ==> flow[k].alias != slot && !FillsInline(flow[k].nested, slot)
      ensures !found ==> Between(fragments, slot, old(visited), visited)
      ensures !found ==> forall n :: RefersTo(flow[k], fragments, n) || Mentions(flow[k].nested, fragments, n) ==>
                n in visited
      ensures old(visited) <= visited
      decreases fragments.Keys - visited, flow, 2
    {
      hide Between, Fills, Mentions, FillsInline;
      var step := flow[k];
      if step.alias == slot {
        FillsAtOnce(flow, fragments, slot);
        return true;
      }
      NothingNew(fragments, slot, visited);
      EmptyFlow(fragments, slot);
      if |step.nested| > 0 {
        found := Walk(step.nested);
        if found {
          FillsNested(flow, fragments, slot, k);
          return true;
        }
      }
      var refs := [step.flowName, step.thenFlow, step.elseFlow];
      for r := 0 to |refs|
        invariant Valid() && Between(fragments, slot, old(visited), visited) && old(visited) <= visited
        invariant forall n :: Mentions(step.nested, fragments, n) ==> n in visited
        invariant forall m :: 0 <= m < r && refs[m] != "" && refs[m] in fragments ==> refs[m] in visited
      {
        ghost var before := visited;
        found := Follow(refs[r], flow);
        if found {
          MentionedByStep(flow, fragments, k, refs[r]);
          FillsThrough(flow, fragments, slot, refs[r]);
          return true;
        }
        Compose(fragments, slot, old(visited), before, visited);
      }
      assert refs[0] == step.flowName && refs[1] == step.thenFlow && refs[2] == step.elseFlow;
      ghost var before := visited;
      found := WalkCases(flow, k);
      if !found {
        Compose(fragments, slot, old(visited), before, visited);
      }
    }

    method WalkCases(flow: Flow, k: nat) returns (found: bool)
      requires Valid() && k < |flow|
      modifies this
      ensures Valid()
      ensures found ==> Fills(flow, fragments, slot)
      ensures !found ==> Between(fragments, slot, old(visited), visited)
      ensures !found ==> forall n :: n in flow[k].cases.Values && n != "" && n in fragments ==> n in visited
      ensures old(visited) <= visited
      decreases fragments.Keys - visited, flow, 1
    {
      hide Between, Fills, Mentions, FillsInline;
      NothingNew(fragments, slot, visited);
      var cases := flow[k].cases.Values;
      var left := cases;
      while left != {}
        invariant left <= cases && Valid() && Between(fragments, slot, old(visited), visited) && old(visited) <= visited
        invariant forall n :: n in cases && n !in left && n != "" && n in fragments ==> n in visited
        decreases left
      {
        var ref :| ref in left;
        ghost var before := visited;
        found := Follow(ref, flow);
        if found {
          MentionedByStep(flow, fragments, k, ref);
          FillsThrough(flow, fragments, slot, ref);
          return true;
        }
        Compose(fragments, slot, old(visited), before, visited);
        left := left - {ref};
      }
      return false;
    }
  }

  /** The whole check terminates on every flow graph and is true exactly when a reachable step fills the slot. */
  method FlowFillsSlot(flow: Flow, fragments: Fragments, slot: string) returns (found: bool)
    ensures found == Fills(flow, fragments, slot)
  {
    hide FillsInline, Mentions;
    var search := new Search(fragments, slot);
    found := search.Walk(flow);
    if !found {
      forall names
        ensures !FillsVia(flow, fragments, slot, names)
      {
        SettledNeverFills(flow, fragments, slot, search.visited, names);
      }
    }
  }
}
