/** What skill selection guarantees: one winner a scope, losers that name it, and scopes that do
    not disturb each other. */
module SkillWinners {
  import opened SkillSelection

  ghost predicate Selected(skills: Skills, name: string)
  {
    name in skills && OutcomeOf(skills, name).selected
  }

  /** Selected means eligible; in a scope it means being the least eligible candidate. */
  lemma {:induction false} SelectedIff(skills: Skills, name: string)
    requires name in skills
    ensures var meta := skills[name].meta;
            Selected(skills, name) <==>
              if meta.scope == "" then meta.selected && meta.eligibility.Eligible?
              else IsWinner(skills, meta.scope, name)
    ensures Selected(skills, name) ==> IsEligible(skills, name)
  {
    assert Decided(skills, name, OutcomeOf(skills, name));
  }

  ghost function SelectedIn(skills: Skills, scope: string): set<string>
  {
    set n | n in skills && InScope(skills, scope, n) && Selected(skills, n)
  }

  /** A scope has exactly one selected skill when it has an eligible one, and none otherwise. */
  lemma {:induction false} OneSelected(skills: Skills, scope: string)
    requires scope != ""
    ensures |SelectedIn(skills, scope)| == if exists n :: Competes(skills, scope, n) then 1 else 0
    ensures forall n :: n in SelectedIn(skills, scope) <==> IsWinner(skills, scope, n)
  {
    forall n
      ensures n in SelectedIn(skills, scope) <==> IsWinner(skills, scope, n)
    {
      if n in skills {
        SelectedIff(skills, n);
      }
    }
    WinnerExistsIff(skills, scope);
    if w :| IsWinner(skills, scope, w) {
      forall n | n in SelectedIn(skills, scope)
        ensures n == w
      {
        OneWinner(skills, scope, n, w);
      }
      assert SelectedIn(skills, scope) == {w};
    } else {
      assert SelectedIn(skills, scope) == {};
    }
  }

  /** An eligible loser names the winner of its scope and says how it lost; it claims that there
      was no winner exactly when the winner's name is empty. */
  lemma {:induction false} LosersNameWinner(skills: Skills, name: string, winner: string)
    requires name in skills && skills[name].meta.scope != "" && IsEligible(skills, name)
    requires IsWinner(skills, skills[name].meta.scope, winner) && name != winner
    ensures var o := OutcomeOf(skills, name);
            && !o.selected && o.mode == Derived && o.scope == skills[name].meta.scope
            && o.winnerPath == WinnerPath(winner)
            && (o.reason == NoEligibleWinner <==> winner == "")
            && (o.reason == TieBreakPathOrder <==> winner != "" && SamePrecedence(skills, name, winner))
            && (o.reason == HigherPrecedenceSelected <==> winner != "" && !SamePrecedence(skills, name, winner))
  {
    var scope, o := skills[name].meta.scope, OutcomeOf(skills, name);
    assert Decided(skills, name, o);
    if IsWinner(skills, scope, name) {
      OneWinner(skills, scope, name, winner);
    }
    var w :| IsWinner(skills, scope, w) &&
      o == Outcome(false, Derived, scope, LoserReason(skills, name, w), WinnerPath(w));
    OneWinner(skills, scope, w, winner);
  }

  // ---------------------------------------------------------------- ties

  /** Only the tiers that normalisation lets through. */
  predicate KnownTiers(skills: Skills) {
    forall n :: n in skills ==> !skills[n].meta.tier.OtherTier?
  }

  lemma {:induction false} RunnerUpIsNext(skills: Skills, scope: string, winner: string, runner: string, n: string)
    requires KnownTiers(skills) && IsWinner(skills, scope, winner) && IsRunnerUp(skills, scope, winner, runner)
    requires Competes(skills, scope, n) && n != winner && SamePrecedence(skills, winner, n)
    ensures SamePrecedence(skills, winner, runner)
  {
    if runner != n {
      assert Before(skills, winner, runner) && Before(skills, runner, n);
      var w, r := skills[winner].meta, skills[runner].meta;
      assert TierWeight(w.tier) <= TierWeight(r.tier) <= TierWeight(skills[n].meta.tier);
    }
  }

  lemma {:induction false} SomeRunnerUp(skills: Skills, scope: string, winner: string,
                                        n: string) returns (runner: string)
    requires Competes(skills, scope, n) && n != winner
    ensures IsRunnerUp(skills, scope, winner, runner)
  {
    var others := set m | m in skills && Competes(skills, scope, m) && m != winner;
    assert n in others;
    runner := LeastOf(skills, others);
  }

  /** The winner reports a tie exactly when another eligible candidate of its scope has the same
      tier and rank. */
  lemma {:induction false} TieIffShared(skills: Skills, name: string)
    requires KnownTiers(skills) && name in skills && skills[name].meta.scope != ""
    requires IsWinner(skills, skills[name].meta.scope, name)
    ensures var scope, reason := skills[name].meta.scope, OutcomeOf(skills, name).reason;
            && (reason == TieBreakPathOrder <==>
                exists n :: Competes(skills, scope, n) && n != name && SamePrecedence(skills, name, n))
            && (reason == TieBreakPathOrder || reason == HighestPrecedence)
  {
    var scope := skills[name].meta.scope;
    assert Decided(skills, name, OutcomeOf(skills, name));
    if n :| Competes(skills, scope, n) && n != name && SamePrecedence(skills, name, n) {
      var runner := SomeRunnerUp(skills, scope, name, n);
      RunnerUpIsNext(skills, scope, name, runner, n);
    }
  }

  // ---------------------------------------------------------------- frames

  /** The two maps differ at most in the skill `x`. */
  predicate DifferAt(before: Skills, after: Skills, x: string) {
    before - {x} == after - {x}
  }

  lemma {:induction false} SameElsewhere(before: Skills, after: Skills, x: string, n: string)
    requires DifferAt(before, after, x) && n != x
    ensures n in before <==> n in after
    ensures n in before ==> before[n] == after[n]
  {
    assert n in before <==> n in before - {x};
    assert n in after <==> n in after - {x};
    if n in before {
      assert before[n] == (before - {x})[n] == (after - {x})[n] == after[n];
    }
  }

  ghost predicate SameCandidates(before: Skills, after: Skills, scope: string)
  {
    forall n :: (Competes(before, scope, n) <==> Competes(after, scope, n)) &&
                (InScope(before, scope, n) || InScope(after, scope, n) ==>
                   n in before && n in after && before[n].meta == after[n].meta)
  }

  lemma {:induction false} UntouchedScope(before: Skills, after: Skills, x: string, scope: string)
    requires DifferAt(before, after, x) && !InScope(before, scope, x) && !InScope(after, scope, x)
    ensures SameCandidates(before, after, scope)
  {
    forall n | n != x
      ensures (n in before <==> n in after) && (n in before ==> before[n] == after[n])
    {
      SameElsewhere(before, after, x, n);
    }
  }

  lemma {:induction false} SameWinners(before: Skills, after: Skills, scope: string)
    requires SameCandidates(before, after, scope)
    ensures forall w :: IsWinner(before, scope, w) <==> IsWinner(after, scope, w)
  {
    forall a, b | Competes(before, scope, a) && Competes(before, scope, b)
      ensures Competes(after, scope, a) && Competes(after, scope, b)
      ensures Before(before, a, b) == Before(after, a, b)
    {
    }
  }

  lemma {:induction false} SameRunnerUps(before: Skills, after: Skills, scope: string, winner: string)
    requires SameCandidates(before, after, scope)
    ensures forall n :: IsRunnerUp(before, scope, winner, n) <==> IsRunnerUp(after, scope, winner, n)
  {
    forall a, b | Competes(before, scope, a) && Competes(before, scope, b)
      ensures Competes(after, scope, a) && Competes(after, scope, b)
      ensures Before(before, a, b) == Before(after, a, b)
    {
    }
  }

  lemma {:induction false} SameDecision(before: Skills, after: Skills, name: string, o: Outcome)
    requires name in before && name in after && before[name].meta == after[name].meta
    requires before[name].meta.scope != "" && SameCandidates(before, after, before[name].meta.scope)
    requires Decided(before, name, o)
    ensures Decided(after, name, o)
  {
    var scope := before[name].meta.scope;
    SameWinners(before, after, scope);
    SameRunnerUps(before, after, scope, name);
    if IsEligible(before, name) && !IsWinner(before, scope, name) {
      var w :| IsWinner(before, scope, w) &&
        o == Outcome(false, Derived, scope, LoserReason(before, name, w), WinnerPath(w));
      assert IsWinner(after, scope, w) && LoserReason(before, name, w) == LoserReason(after, name, w);
    }
  }

  /** Adding, changing or removing one skill leaves the outcome of every other skill as it was,
      unless that skill shares a scope with the old or the new version. */
  lemma {:induction false} UnrelatedUnchanged(before: Skills, after: Skills, x: string, name: string)
    requires DifferAt(before, after, x) && name != x && name in before
    requires var scope := before[name].meta.scope;
             scope == "" || (!InScope(before, scope, x) && !InScope(after, scope, x))
    ensures name in after && OutcomeOf(after, name) == OutcomeOf(before, name)
  {
    SameElsewhere(before, after, x, name);
    var scope, o := before[name].meta.scope, OutcomeOf(before, name);
    if scope != "" {
      UntouchedScope(before, after, x, scope);
      SameDecision(before, after, name, o);
    }
    DecidedOnce(after, name, o, OutcomeOf(after, name));
  }

  /** Removing a skill that had not won keeps the winner of every scope. */
  lemma {:induction false} RemovingLoserKeepsWinner(skills: Skills, x: string, scope: string, winner: string)
    requires IsWinner(skills, scope, winner) && x != winner
    ensures IsWinner(skills - {x}, scope, winner)
  {
    var after := skills - {x};
    forall other | Competes(after, scope, other) && other != winner
      ensures Before(after, winner, other)
    {
      assert Competes(skills, scope, other);
    }
  }
}
