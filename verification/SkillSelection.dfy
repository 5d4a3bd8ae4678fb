/** Skill selection: in each scope one winner is picked from an unordered map of skills by a
    total order on eligibility, tier, rank and name. */
module SkillSelection {
  import opened Prelude
  import opened WhiteSpace
  import opened EnginePath
  import Ordering

  datatype Eligibility = Eligible | Ineligible | UnknownEligibility | OtherState(text: string)

  datatype Tier = Workspace | User | Bundled | OtherTier(text: string)

  datatype Metadata = Metadata(source: string, freshness: string, eligibility: Eligibility, tier: Tier, rank: int,
                               scope: string, selected: bool)

  datatype Skill = Skill(content: string, meta: Metadata)

  type Skills = map<string, Skill>

  datatype Reason =
    | ExplicitSelected
    | ExplicitNotSelected
    | UnknownState
    | NotEligible
    | HighestPrecedence
    | HigherPrecedenceSelected
    | TieBreakPathOrder
    | NoEligibleWinner

  datatype Mode = Derived | Explicit

  datatype Outcome = Outcome(selected: bool, mode: Mode, scope: string, reason: Reason, winnerPath: string)

  // ---------------------------------------------------------------- the order of candidates

  function TierWeight(tier: Tier): int
  {
    match tier
    case Workspace => 0
    case User => 1
    case Bundled => 2
    case OtherTier(_) => 3
  }

  function CompareCandidates(leftName: string, left: Metadata, rightName: string, right: Metadata): int
  {
    if left.eligibility.Eligible? && !right.eligibility.Eligible? then -1
    else if !left.eligibility.Eligible? && right.eligibility.Eligible? then 1
    else if TierWeight(left.tier) < TierWeight(right.tier) then -1
    else if TierWeight(left.tier) > TierWeight(right.tier) then 1
    else if left.rank < right.rank then -1
    else if left.rank > right.rank then 1
    else Ordering.Compare(leftName, rightName)
  }

  predicate Before(skills: Skills, a: string, b: string)
    requires a in skills && b in skills
  {
    CompareCandidates(a, skills[a].meta, b, skills[b].meta) < 0
  }

  /** The comparator is a strict total order on the names of a map. */
  lemma {:induction false} CandidatesTotallyOrdered(skills: Skills, a: string, b: string)
    requires a in skills && b in skills
    ensures !(Before(skills, a, b) && Before(skills, b, a))
    ensures Before(skills, a, b) || Before(skills, b, a) <==> a != b
  {
    Ordering.CompareFlips(a, b);
  }

  lemma {:induction false} CandidatesTransitive(skills: Skills, a: string, b: string, c: string)
    requires a in skills && b in skills && c in skills && Before(skills, a, b) && Before(skills, b, c)
    ensures Before(skills, a, c)
  {
    if CompareCandidates(a, skills[a].meta, b, skills[b].meta) == Ordering.Compare(a, b) < 0
       && CompareCandidates(b, skills[b].meta, c, skills[c].meta) == Ordering.Compare(b, c) < 0
    {
      Ordering.CompareTransitive(a, b, c);
    }
  }

  // ---------------------------------------------------------------- what is promised per skill

  predicate IsEligible(skills: Skills, name: string) {
    name in skills && skills[name].meta.eligibility.Eligible?
  }

  predicate InScope(skills: Skills, scope: string, name: string) {
    name in skills && skills[name].meta.scope == scope
  }

  predicate Competes(skills: Skills, scope: string, name: string) {
    InScope(skills, scope, name) && IsEligible(skills, name)
  }

  /** The least of the eligible candidates of a scope. */
  ghost predicate IsWinner(skills: Skills, scope: string, name: string)
  {
    Competes(skills, scope, name) &&
    forall other :: Competes(skills, scope, other) && other != name ==> Before(skills, name, other)
  }

  /** The least of the other eligible candidates. */
  ghost predicate IsRunnerUp(skills: Skills, scope: string, winner: string, name: string)
  {
    Competes(skills, scope, name) && name != winner &&
    forall other :: Competes(skills, scope, other) && other != winner && other != name ==> Before(skills, name, other)
  }

  predicate SamePrecedence(skills: Skills, a: string, b: string)
    requires a in skills && b in skills
  {
    skills[a].meta.tier == skills[b].meta.tier && skills[a].meta.rank == skills[b].meta.rank
  }

  /** path.Join("/skills", name), unless the name is blank. */
  function WinnerPath(name: string): string
  {
    if TrimSpace(name) == "" then "" else CleanRooted("/skills/" + name)
  }

  ghost predicate WinnerReasonOk(skills: Skills, scope: string, winner: string, reason: Reason)
    requires winner in skills
  {
    reason ==
    if exists n :: IsRunnerUp(skills, scope, winner, n) && SamePrecedence(skills, winner, n) then TieBreakPathOrder
    else HighestPrecedence
  }

  /** A skill outside every scope decides for itself. */
  function ExplicitOutcome(meta: Metadata): Outcome
  {
    var selected := meta.selected && meta.eligibility.Eligible?;
    var reason :=
      if selected then ExplicitSelected
      else if meta.eligibility.Ineligible? then NotEligible
      else if meta.eligibility.UnknownEligibility? then UnknownState
      else ExplicitNotSelected;
    Outcome(selected, Explicit, "", reason, "")
  }

  function LoserReason(skills: Skills, name: string, winner: string): Reason
    requires name in skills && (winner == "" || winner in skills)
  {
    if winner == "" then NoEligibleWinner
    else if SamePrecedence(skills, name, winner) then TieBreakPathOrder
    else HigherPrecedenceSelected
  }

  /** What the selection must say of one skill, without any order of traversal. */
  ghost predicate Decided(skills: Skills, name: string, o: Outcome)
    requires name in skills
  {
    var meta := skills[name].meta;
    if meta.scope == "" then o == ExplicitOutcome(meta)
    else if !meta.eligibility.Eligible? then o == Outcome(false, Derived, meta.scope, NotEligible, "")
    else if IsWinner(skills, meta.scope, name) then
      o == Outcome(true, Derived, meta.scope, o.reason, "") && WinnerReasonOk(skills, meta.scope, name, o.reason)
    else
      exists winner :: IsWinner(skills, meta.scope, winner) &&
        o == Outcome(false, Derived, meta.scope, LoserReason(skills, name, winner), WinnerPath(winner))
  }

  /** The promise fixes the outcome: no iteration order can show through. */
  lemma {:induction false} DecidedOnce(skills: Skills, name: string, a: Outcome, b: Outcome)
    requires name in skills && Decided(skills, name, a) && Decided(skills, name, b)
    ensures a == b
  {
    var meta := skills[name].meta;
    if meta.scope != "" && meta.eligibility.Eligible? && !IsWinner(skills, meta.scope, name) {
      var v :| IsWinner(skills, meta.scope, v) &&
        a == Outcome(false, Derived, meta.scope, LoserReason(skills, name, v), WinnerPath(v));
      var w :| IsWinner(skills, meta.scope, w) &&
        b == Outcome(false, Derived, meta.scope, LoserReason(skills, name, w), WinnerPath(w));
      OneWinner(skills, meta.scope, v, w);
    }
  }

  lemma {:induction false} OneWinner(skills: Skills, scope: string, a: string, b: string)
    requires IsWinner(skills, scope, a) && IsWinner(skills, scope, b)
    ensures a == b
  {
    CandidatesTotallyOrdered(skills, a, b);
  }

  /** Some eligible name comes before all the others. */
  lemma {:induction false} LeastOf(skills: Skills, names: set<string>) returns (least: string)
    requires names != {} && names <= skills.Keys
    ensures least in names && forall n :: n in names && n != least ==> Before(skills, least, n)
    decreases |names|
  {
    var some :| some in names;
    least := some;
    var rest := names - {some};
    if rest != {} {
      var other := LeastOf(skills, rest);
      CandidatesTotallyOrdered(skills, some, other);
      if Before(skills, other, some) {
        least := other;
      } else {
        forall n | n in rest && n != other
          ensures Before(skills, some, n)
        {
          CandidatesTransitive(skills, some, other, n);
        }
      }
    }
  }

  /** A scope has a winner exactly when it has an eligible candidate. */
  lemma {:induction false} WinnerExistsIff(skills: Skills, scope: string)
    ensures (exists w :: IsWinner(skills, scope, w)) <==> (exists n :: Competes(skills, scope, n))
  {
    var names := set n | n in skills && Competes(skills, scope, n);
    if n :| Competes(skills, scope, n) {
      assert n in names;
      var least := LeastOf(skills, names);
      assert IsWinner(skills, scope, least);
    }
  }

  lemma {:induction false} SomeOutcome(skills: Skills, name: string)
    requires name in skills
    ensures exists o :: Decided(skills, name, o)
  {
    var meta := skills[name].meta;
    var scope := meta.scope;
    if scope == "" {
      assert Decided(skills, name, ExplicitOutcome(meta));
    } else if !meta.eligibility.Eligible? {
      assert Decided(skills, name, Outcome(false, Derived, scope, NotEligible, ""));
    } else if IsWinner(skills, scope, name) {
      var tie := exists n :: IsRunnerUp(skills, scope, name, n) && SamePrecedence(skills, name, n);
      var reason := if tie then TieBreakPathOrder else HighestPrecedence;
      assert Decided(skills, name, Outcome(true, Derived, scope, reason, ""));
    } else {
      WinnerExistsIff(skills, scope);
      assert Competes(skills, scope, name);
      var w :| IsWinner(skills, scope, w);
      assert Decided(skills, name, Outcome(false, Derived, scope, LoserReason(skills, name, w), WinnerPath(w)));
    }
  }

  /** The outcome promised for a skill: there is one, and by DecidedOnce no other. */
  ghost function OutcomeOf(skills: Skills, name: string): (o: Outcome)
    requires name in skills
    ensures Decided(skills, name, o)
  {
    SomeOutcome(skills, name);
    var o :| Decided(skills, name, o);
    o
  }

  // ---------------------------------------------------------------- the derivation

  /** What one scope's sorted list of names is. */
  ghost predicate SortedScope(skills: Skills, scope: string, names: seq<string>)
  {
    && NoRepeats(names)
    && (forall n :: n in names <==> InScope(skills, scope, n))
    && (forall i, j :: 0 <= i < j < |names| ==> SortKey(skills)(names[i], names[j]))
  }

  lemma {:induction false} SortKeyOrders(skills: Skills, names: seq<string>)
    requires forall n :: n in names ==> n in skills
    ensures Ordering.Orders(SortKey(skills), names)
  {
    var less := SortKey(skills);
    forall a, b | a in names && b in names && less(a, b)
      ensures !less(b, a)
    {
      CandidatesTotallyOrdered(skills, a, b);
    }
    forall a, b, c | a in names && b in names && c in names && !less(b, a) && !less(c, b)
      ensures !less(c, a)
    {
      NotAfterIsTransitive(skills, a, b, c);
    }
  }

  lemma {:induction false} NotAfterIsTransitive(skills: Skills, a: string, b: string, c: string)
    requires a in skills && b in skills && c in skills && !Before(skills, b, a) && !Before(skills, c, b)
    ensures !Before(skills, c, a)
  {
    CandidatesTotallyOrdered(skills, a, b);
    CandidatesTotallyOrdered(skills, b, c);
    CandidatesTotallyOrdered(skills, a, c);
    if a != b && b != c {
      CandidatesTransitive(skills, a, b, c);
    }
  }

  lemma {:induction false} SortNames(skills: Skills, unsorted: seq<string>, scope: string)
    requires NoRepeats(unsorted) && forall n :: n in unsorted <==> InScope(skills, scope, n)
    ensures SortedScope(skills, scope, Ordering.Sort(SortKey(skills), unsorted))
  {
    SortKeyOrders(skills, unsorted);
    Ordering.SortOrders(SortKey(skills), unsorted);
    var names := Ordering.Sort(SortKey(skills), unsorted);
    Ordering.SameMembers(unsorted, names);
    SameBagNoRepeats(unsorted, names);
    forall i, j | 0 <= i < j < |names|
      ensures SortKey(skills)(names[i], names[j])
    {
      assert names[i] in names && names[j] in names;
      CandidatesTotallyOrdered(skills, names[i], names[j]);
    }
  }

  function SortKey(skills: Skills): (string, string) -> bool
  {
    (a, b) => a in skills && b in skills && Before(skills, a, b)
  }

  /** The first eligible name of the sorted list. */
  method SelectWinner(skills: Skills, ghost scope: string, names: seq<string>) returns (winner: Option<string>)
    requires SortedScope(skills, scope, names)
    ensures winner.Some? ==> IsWinner(skills, scope, winner.value)
    ensures winner.None? ==> forall n :: !Competes(skills, scope, n)
  {
    for k := 0 to |names|
      invariant forall j :: 0 <= j < k ==> !IsEligible(skills, names[j])
    {
      assert names[k] in names;
      if skills[names[k]].meta.eligibility.Eligible? {
        forall other | Competes(skills, scope, other) && other != names[k]
          ensures Before(skills, names[k], other)
        {
          var j :| 0 <= j < |names| && names[j] == other;
        }
        return Some(names[k]);
      }
    }
    return None;
  }

  method WinnerReason(skills: Skills, ghost scope: string, names: seq<string>, winner: string) returns (reason: Reason)
    requires SortedScope(skills, scope, names) && IsWinner(skills, scope, winner)
    ensures WinnerReasonOk(skills, scope, winner, reason)
  {
    for k := 0 to |names|
      invariant forall j :: 0 <= j < k ==> names[j] == winner || !IsEligible(skills, names[j])
    {
      var name := names[k];
      assert name in names;
      if name == winner || !skills[name].meta.eligibility.Eligible? {
        continue;
      }
      FirstOtherIsRunnerUp(skills, scope, names, winner, k);
      if SamePrecedence(skills, winner, name) {
        return TieBreakPathOrder;
      }
      return HighestPrecedence;
    }
    return HighestPrecedence;
  }

  lemma {:induction false} FirstOtherIsRunnerUp(skills: Skills, scope: string, names: seq<string>, winner: string,
                                                k: nat)
    requires SortedScope(skills, scope, names) && k < |names| && names[k] != winner && IsEligible(skills, names[k])
    requires forall j :: 0 <= j < k ==> names[j] == winner || !IsEligible(skills, names[j])
    ensures forall n :: IsRunnerUp(skills, scope, winner, n) <==> n == names[k]
  {
    assert names[k] in names;
    forall other | Competes(skills, scope, other) && other != winner && other != names[k]
      ensures Before(skills, names[k], other)
    {
      var j :| 0 <= j < |names| && names[j] == other;
    }
    forall n | IsRunnerUp(skills, scope, winner, n)
      ensures n == names[k]
    {
      CandidatesTotallyOrdered(skills, n, names[k]);
    }
  }

  type Outcomes = map<string, Outcome>

  /** Every name in `done`, and nothing else, has been decided as promised. */
  ghost predicate AllDecided(skills: Skills, outcomes: Outcomes, done: set<string>)
    requires done <= skills.Keys
  {
    outcomes.Keys == done && forall n :: n in done ==> Decided(skills, n, outcomes[n])
  }

  method DecideScope(skills: Skills, scope: string, names: seq<string>, outcomes0: Outcomes, ghost done: set<string>)
    returns (outcomes: Outcomes)
    requires scope != "" && SortedScope(skills, scope, names)
    requires done <= skills.Keys && AllDecided(skills, outcomes0, done)
    ensures NamesOf(names) <= skills.Keys && AllDecided(skills, outcomes, done + NamesOf(names))
  {
    var winner := SelectWinner(skills, scope, names);
    var winnerName := if winner.Some? then winner.value else "";
    outcomes := outcomes0;
    for k := 0 to |names|
      invariant NamesOf(names[..k]) <= skills.Keys
      invariant AllDecided(skills, outcomes, done + NamesOf(names[..k]))
    {
      var name := names[k];
      assert name in names && NamesOf(names[..k + 1]) == NamesOf(names[..k]) + {name};
      var meta := skills[name].meta;
      var outcome: Outcome;
      if !meta.eligibility.Eligible? {
        outcome := Outcome(false, Derived, scope, NotEligible, "");
      } else if winner.Some? && name == winnerName {
        var reason := WinnerReason(skills, scope, names, name);
        outcome := Outcome(true, Derived, scope, reason, "");
      } else {
        if IsWinner(skills, scope, name) {
          OneWinner(skills, scope, name, winnerName);
        }
        outcome := Outcome(false, Derived, scope, LoserReason(skills, name, winnerName), WinnerPath(winnerName));
      }
      assert Decided(skills, name, outcome);
      outcomes := outcomes[name := outcome];
    }
    assert names[..|names|] == names;
  }

  ghost function NamesOf(names: seq<string>): set<string>
  {
    set n | n in names
  }

  /** The names of each scope, in whatever order the map yielded them. */
  type Scopes = map<string, seq<string>>

  function ScopeNames(scopes: Scopes, scope: string): seq<string>
  {
    if scope in scopes then scopes[scope] else []
  }

  ghost predicate Grouped(skills: Skills, scopes: Scopes, done: set<string>)
  {
    && (forall s :: s in scopes ==> s != "" && NoRepeats(scopes[s]))
    && (forall s, n :: s in scopes ==> (n in scopes[s] <==> n in done && InScope(skills, s, n)))
    && (forall n :: n in done && n in skills && skills[n].meta.scope != "" ==> skills[n].meta.scope in scopes)
  }

  ghost function Unscoped(skills: Skills, among: set<string>): set<string>
  {
    set n | n in among && InScope(skills, "", n)
  }

  lemma {:induction false} GroupOneMore(skills: Skills, scopes: Scopes, done: set<string>, name: string)
    requires Grouped(skills, scopes, done) && name in skills && name !in done && skills[name].meta.scope != ""
    ensures var s := skills[name].meta.scope;
            Grouped(skills, scopes[s := ScopeNames(scopes, s) + [name]], done + {name})
  {
    var s := skills[name].meta.scope;
    var list := ScopeNames(scopes, s) + [name];
    assert forall n :: n in list <==> n in ScopeNames(scopes, s) || n == name;
  }

  lemma {:induction false} GroupSkipped(skills: Skills, scopes: Scopes, done: set<string>, name: string)
    requires Grouped(skills, scopes, done) && InScope(skills, "", name)
    ensures Grouped(skills, scopes, done + {name})
  {
  }

  lemma {:induction false} UnscopedOneMore(skills: Skills, among: set<string>, name: string)
    ensures Unscoped(skills, among + {name}) ==
            if InScope(skills, "", name) then Unscoped(skills, among) + {name} else Unscoped(skills, among)
  {
  }

  /** The first pass: names without a scope are decided at once, the others grouped. */
  ghost predicate FirstPass(skills: Skills, outcomes: Outcomes, scopes: Scopes, done: set<string>)
  {
    AllDecided(skills, outcomes, Unscoped(skills, done)) && Grouped(skills, scopes, done)
  }

  method GroupName(skills: Skills, name: string, outcomes0: Outcomes, scopes0: Scopes, ghost done: set<string>)
    returns (outcomes: Outcomes, scopes: Scopes)
    requires name in skills && name !in done && FirstPass(skills, outcomes0, scopes0, done)
    ensures FirstPass(skills, outcomes, scopes, done + {name})
  {
    outcomes, scopes := outcomes0, scopes0;
    UnscopedOneMore(skills, done, name);
    var meta := skills[name].meta;
    if meta.scope == "" {
      GroupSkipped(skills, scopes, done, name);
      outcomes := outcomes[name := ExplicitOutcome(meta)];
    } else {
      GroupOneMore(skills, scopes, done, name);
      scopes := scopes[meta.scope := ScopeNames(scopes, meta.scope) + [name]];
    }
  }

  method GroupScopes(skills: Skills) returns (outcomes: Outcomes, scopes: Scopes)
    ensures FirstPass(skills, outcomes, scopes, skills.Keys)
  {
    outcomes, scopes := map[], map[];
    var remaining := skills.Keys;
    while remaining != {}
      invariant remaining <= skills.Keys && FirstPass(skills, outcomes, scopes, skills.Keys - remaining)
      decreases |remaining|
    {
      var name :| name in remaining;
      assert skills.Keys - (remaining - {name}) == skills.Keys - remaining + {name};
      outcomes, scopes := GroupName(skills, name, outcomes, scopes, skills.Keys - remaining);
      remaining := remaining - {name};
    }
    assert skills.Keys - remaining == skills.Keys;
  }

  /** `done` holds the names outside every scope and those of the given scopes. */
  ghost predicate NamesUpTo(skills: Skills, scopes: set<string>, done: set<string>)
  {
    forall n :: n in done <==> n in skills && (skills[n].meta.scope == "" || skills[n].meta.scope in scopes)
  }

  lemma {:induction false} ScopeOneMore(skills: Skills, scopes: set<string>, done: set<string>, scope: string,
                                        names: seq<string>)
    requires NamesUpTo(skills, scopes, done) && forall n :: n in names <==> InScope(skills, scope, n)
    requires scope != ""
    ensures NamesUpTo(skills, scopes + {scope}, done + NamesOf(names))
  {
  }

  lemma {:induction false} EveryNameDone(skills: Skills, scopes: Scopes, done: set<string>)
    requires Grouped(skills, scopes, skills.Keys) && NamesUpTo(skills, scopes.Keys, done)
    ensures done == skills.Keys
  {
    forall n | n in skills && skills[n].meta.scope != ""
      ensures skills[n].meta.scope in scopes
    {
    }
  }

  method SortAndDecide(skills: Skills, scope: string, unsorted: seq<string>, outcomes0: Outcomes,
                       ghost scopes: set<string>, ghost done: set<string>)
    returns (outcomes: Outcomes, ghost done': set<string>)
    requires scope != "" && NoRepeats(unsorted) && forall n :: n in unsorted <==> InScope(skills, scope, n)
    requires done <= skills.Keys && AllDecided(skills, outcomes0, done) && NamesUpTo(skills, scopes, done)
    ensures done' <= skills.Keys && AllDecided(skills, outcomes, done') && NamesUpTo(skills, scopes + {scope}, done')
  {
    SortNames(skills, unsorted, scope);
    var names := Ordering.Sort(SortKey(skills), unsorted);
    outcomes := DecideScope(skills, scope, names, outcomes0, done);
    ScopeOneMore(skills, scopes, done, scope, names);
    done' := done + NamesOf(names);
  }

  /** The second pass: one scope after the other, in whatever order the map yields them. */
  method DecideScopes(skills: Skills, scopes: Scopes, outcomes0: Outcomes) returns (outcomes: Outcomes)
    requires FirstPass(skills, outcomes0, scopes, skills.Keys)
    ensures AllDecided(skills, outcomes, skills.Keys)
  {
    outcomes := outcomes0;
    var remaining := scopes.Keys;
    ghost var done := Unscoped(skills, skills.Keys);
    while remaining != {}
      invariant remaining <= scopes.Keys && done <= skills.Keys
      invariant AllDecided(skills, outcomes, done) && NamesUpTo(skills, scopes.Keys - remaining, done)
      decreases |remaining|
    {
      var scope :| scope in remaining;
      assert scopes.Keys - (remaining - {scope}) == scopes.Keys - remaining + {scope};
      outcomes, done := SortAndDecide(skills, scope, scopes[scope], outcomes, scopes.Keys - remaining, done);
      remaining := remaining - {scope};
    }
    assert scopes.Keys - remaining == scopes.Keys;
    EveryNameDone(skills, scopes, done);
  }

  /** Both maps are traversed in an arbitrary order; every skill still gets the one outcome it
      is promised. */
  method DeriveOutcomes(skills: Skills) returns (outcomes: Outcomes)
    ensures outcomes.Keys == skills.Keys && forall n :: n in skills ==> outcomes[n] == OutcomeOf(skills, n)
  {
    var scopes: Scopes;
    outcomes, scopes := GroupScopes(skills);
    outcomes := DecideScopes(skills, scopes, outcomes);
    forall n | n in skills
      ensures outcomes[n] == OutcomeOf(skills, n)
    {
      DecidedOnce(skills, n, outcomes[n], OutcomeOf(skills, n));
    }
  }
}
