/** Which skill wins a scope, and what every skill is told, without the comparator: workspace before
    user before bundled, then the smaller rank, then the name that comes first byte by byte. */
module SkillOrder {
  import opened WhiteSpace
  import opened SkillSelection
  import opened SkillWinners
  import EnginePath
  import Ordering

  predicate BetterTier(a: Tier, b: Tier) {
    || (a.Workspace? && !b.Workspace?)
    || (a.User? && (b.Bundled? || b.OtherTier?))
    || (a.Bundled? && b.OtherTier?)
  }

  predicate SameTier(a: Tier, b: Tier) {
    !BetterTier(a, b) && !BetterTier(b, a)
  }

  /** The skill `a` takes precedence over the skill `b`. */
  ghost predicate Precedes(skills: Skills, a: string, b: string)
    requires a in skills && b in skills
  {
    var x, y := skills[a].meta, skills[b].meta;
    || BetterTier(x.tier, y.tier)
    || (SameTier(x.tier, y.tier) && x.rank < y.rank)
    || (SameTier(x.tier, y.tier) && x.rank == y.rank && Ordering.FirstByBytes(a, b))
  }

  lemma {:induction false} BeforeIff(skills: Skills, a: string, b: string)
    requires IsEligible(skills, a) && IsEligible(skills, b)
    ensures Before(skills, a, b) <==> Precedes(skills, a, b)
  {
    Ordering.StringLessIff(a, b);
  }

  /** An eligible skill of the scope. */
  predicate Candidate(skills: Skills, scope: string, name: string) {
    name in skills && skills[name].meta.scope == scope && skills[name].meta.eligibility.Eligible?
  }

  lemma {:induction false} WinnerIff(skills: Skills, scope: string, name: string)
    ensures IsWinner(skills, scope, name) <==>
              Candidate(skills, scope, name) &&
              forall other :: Candidate(skills, scope, other) && other != name ==> Precedes(skills, name, other)
  {
    forall other
      ensures Candidate(skills, scope, other) <==> Competes(skills, scope, other)
      ensures Candidate(skills, scope, other) && Candidate(skills, scope, name) ==>
                (Before(skills, name, other) <==> Precedes(skills, name, other))
    {
      if Candidate(skills, scope, other) && Candidate(skills, scope, name) {
        BeforeIff(skills, name, other);
      }
    }
  }

  /** In a scope a skill is selected exactly if it is eligible and takes precedence over every other
      eligible skill of the scope. */
  lemma {:induction false} SelectedIsFirst(skills: Skills, name: string)
    requires name in skills && skills[name].meta.scope != ""
    ensures var scope := skills[name].meta.scope;
            OutcomeOf(skills, name).selected <==>
              Candidate(skills, scope, name) &&
              forall other :: Candidate(skills, scope, other) && other != name ==> Precedes(skills, name, other)
  {
    SelectedIff(skills, name);
    WinnerIff(skills, skills[name].meta.scope, name);
  }

  /** Hence the selected skill has the best tier of its scope, in that tier the least rank, and of that
      rank the first name. */
  lemma {:induction false} SelectedHasBest(skills: Skills, name: string, other: string)
    requires name in skills && skills[name].meta.scope != "" && OutcomeOf(skills, name).selected
    requires Candidate(skills, skills[name].meta.scope, other) && other != name
    ensures var x, y := skills[name].meta, skills[other].meta;
            && !BetterTier(y.tier, x.tier)
            && (SameTier(x.tier, y.tier) ==> x.rank <= y.rank)
            && (SameTier(x.tier, y.tier) && x.rank == y.rank ==> Ordering.FirstByBytes(name, other))
  {
    SelectedIsFirst(skills, name);
  }

  /** A skill without a scope is selected if its metadata says so and it is eligible; the reason says
      what stood against it. */
  lemma {:induction false} AloneOutcome(skills: Skills, name: string)
    requires name in skills && skills[name].meta.scope == ""
    ensures var meta, o := skills[name].meta, OutcomeOf(skills, name);
            && o.mode == Explicit && o.scope == "" && o.winnerPath == ""
            && (o.selected <==> meta.selected && meta.eligibility.Eligible?)
            && (o.reason == ExplicitSelected <==> o.selected)
            && (o.reason == NotEligible <==> meta.eligibility.Ineligible?)
            && (o.reason == UnknownState <==> meta.eligibility.UnknownEligibility?)
            && (o.reason in {ExplicitSelected, NotEligible, UnknownState, ExplicitNotSelected})
  {
    assert Decided(skills, name, OutcomeOf(skills, name));
  }

  /** A skill of a scope that is not eligible is told so. */
  lemma {:induction false} IneligibleOutcome(skills: Skills, name: string)
    requires name in skills && skills[name].meta.scope != "" && !skills[name].meta.eligibility.Eligible?
    ensures OutcomeOf(skills, name) == Outcome(false, Derived, skills[name].meta.scope, NotEligible, "")
  {
    assert Decided(skills, name, OutcomeOf(skills, name));
  }

  /** An eligible skill that is not selected is told which skill is, by its path, and whether only the
      name decided. */
  lemma {:induction false} LoserOutcome(skills: Skills, name: string) returns (winner: string)
    requires name in skills && skills[name].meta.scope != "" && skills[name].meta.eligibility.Eligible?
    requires !OutcomeOf(skills, name).selected
    ensures Candidate(skills, skills[name].meta.scope, winner) && OutcomeOf(skills, winner).selected
    ensures var meta, o := skills[name].meta, OutcomeOf(skills, name);
            && o.mode == Derived && o.scope == meta.scope
            && (TrimSpace(winner) != "" ==> o.winnerPath == EnginePath.CleanRooted("/skills/" + winner))
            && (TrimSpace(winner) == "" ==> o.winnerPath == "")
            && (winner != "" && skills[winner].meta.tier == meta.tier && skills[winner].meta.rank == meta.rank ==>
                  o.reason == TieBreakPathOrder)
            && (winner != "" && (skills[winner].meta.tier != meta.tier || skills[winner].meta.rank != meta.rank) ==>
                  o.reason == HigherPrecedenceSelected)
            && (winner == "" ==> o.reason == NoEligibleWinner)
  {
    var scope := skills[name].meta.scope;
    assert Competes(skills, scope, name);
    WinnerExistsIff(skills, scope);
    winner :| IsWinner(skills, scope, winner);
    SelectedIff(skills, name);
    SelectedIff(skills, winner);
    LosersNameWinner(skills, name, winner);
  }
}
