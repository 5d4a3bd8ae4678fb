/** Every run of the control plane: the log's numbering, when events become visible, and what the
    log says about winners. */
module ControlPlaneRuns {
  import opened Prelude
  import opened WhiteSpace
  import opened SkillSelection
  import opened SkillWinners
  import opened SkillCatalog
  import opened ControlPlane

  ghost function Run(s: State, ops: seq<Op>): State
    decreases |ops|
  {
    if ops == [] then s else Apply(Run(s, ops[..|ops| - 1]), ops[|ops| - 1])
  }

  ghost predicate Initial(s: State)
  {
    s.events == [] && s.generation == 0 && s.lastSeq == 0 && Canonical(s.skills)
  }

  // ---------------------------------------------------------------- invariants

  /** Event `k` has sequence number `k + 1`, and becomes visible after at least `k + 1` builds in
      all, at most `k + 1` of them still to come. */
  ghost predicate Numbered(s: State)
  {
    && s.generation >= 0 && s.lastSeq == |s.events|
    && (forall k :: 0 <= k < |s.events| ==> s.events[k].seq_ == k + 1)
    && (forall k :: 0 <= k < |s.events| ==> k + 1 <= s.events[k].visibleFrom <= s.generation + k + 1)
  }

  ghost predicate Increasing(events: seq<Event>)
  {
    forall i, j :: 0 <= i < j < |events| ==> events[i].visibleFrom < events[j].visibleFrom
  }

  ghost predicate Good(s: State)
  {
    Numbered(s) && Increasing(s.events) && Canonical(s.skills)
  }

  lemma {:induction false} ApplyKeepsLog(s: State, op: Op)
    ensures Apply(s, op).events == s.events ||
            (|Apply(s, op).events| == |s.events| + 1 && Apply(s, op).events[..|s.events|] == s.events &&
             Apply(s, op).events[|s.events|].visibleFrom == s.generation + 1 + |s.events| &&
             Apply(s, op).events[|s.events|].seq_ == s.lastSeq + 1 && Apply(s, op).lastSeq == s.lastSeq + 1)
    ensures Apply(s, op).events == s.events ==> Apply(s, op).lastSeq == s.lastSeq
    ensures Apply(s, op).generation == s.generation + if op.Build? then 1 else 0
  {
  }

  lemma {:induction false} CanonicalStep(s: State, op: Op)
    requires Canonical(s.skills)
    ensures Canonical(Apply(s, op).skills)
  {
    match op
    case Upsert(raw, content, meta) =>
      StoredIsCanonical(s.skills, raw, NewSkill(content, meta, "control_plane", "updated"));
    case Update(raw, content) =>
      var name := SkillName(raw);
      if name in s.skills {
        StoredIsCanonical(s.skills, raw, Refreshed(s.skills[name], content));
      }
    case _ =>
  }

  lemma {:induction false} StoredIsCanonical(skills: Skills, raw: string, skill: Skill)
    requires Canonical(skills) && CanonicalMeta(skill.meta)
    ensures Canonical(skills[SkillName(raw) := skill])
  {
    SkillNameIsClean(raw);
  }

  lemma {:induction false} NumberedStep(s: State, op: Op)
    requires Numbered(s)
    ensures Numbered(Apply(s, op))
  {
    ApplyKeepsLog(s, op);
    var t := Apply(s, op);
    assert forall k :: 0 <= k < |s.events| ==> t.events[k] == s.events[k];
  }

  lemma {:induction false} IncreasingMore(events: seq<Event>, e: Event)
    requires Increasing(events) && forall k :: 0 <= k < |events| ==> events[k].visibleFrom < e.visibleFrom
    ensures Increasing(events + [e])
  {
  }

  lemma {:induction false} IncreasingStep(s: State, op: Op)
    requires Numbered(s) && Increasing(s.events)
    ensures Increasing(Apply(s, op).events)
  {
    ApplyKeepsLog(s, op);
    var events := Apply(s, op).events;
    if events != s.events {
      IncreasingMore(s.events, events[|s.events|]);
      assert events == events[..|s.events|] + [events[|s.events|]];
    }
  }

  lemma {:induction false} GoodStep(s: State, op: Op)
    requires Good(s)
    ensures Good(Apply(s, op))
  {
    CanonicalStep(s, op);
    NumberedStep(s, op);
    IncreasingStep(s, op);
  }

  lemma {:induction false} LoadedIsCanonical(contents: map<string, string>, metadata: map<string, RawMetadata>,
                                             n: string, skill: Skill)
    requires LoadedAs(contents, metadata, n, skill)
    ensures CleanName(n) && TrimSpace(n) != "" && CanonicalMeta(skill.meta)
  {
    var k, m :| LoadedFrom(contents, metadata, n, skill, k, m);
    SkillNameIsClean(k);
    NewSkillIsCanonical(contents[k], m, "skill_bundle", "snapshot");
  }

  lemma {:induction false} BundleIsCanonical(contents: map<string, string>, metadata: map<string, RawMetadata>,
                                             skills: Skills)
    requires Loaded(contents, metadata, skills)
    ensures Initial(State(skills, [], 0, 0))
  {
    forall n | n in skills
      ensures CleanName(n) && TrimSpace(n) != "" && CanonicalMeta(skills[n].meta)
    {
      LoadedIsCanonical(contents, metadata, n, skills[n]);
    }
  }

  /** Every reachable state: numbering without gaps, visibility strictly increasing, only clean
      names and canonical metadata. */
  lemma {:induction false} ReachableIsGood(s: State, ops: seq<Op>)
    requires Initial(s)
    ensures Good(Run(s, ops))
    decreases |ops|
  {
    if ops != [] {
      ReachableIsGood(s, ops[..|ops| - 1]);
      GoodStep(Run(s, ops[..|ops| - 1]), ops[|ops| - 1]);
    }
  }

  // ---------------------------------------------------------------- visibility

  ghost predicate Visible(s: State, k: nat, generation: int)
  {
    k < |s.events| && s.events[k].visibleFrom <= generation
  }

  /** At any generation the visible events are a prefix of the log. */
  lemma {:induction false} VisibleIsPrefix(events: seq<Event>, generation: int) returns (n: nat)
    requires Increasing(events)
    ensures n <= |events|
    ensures forall k :: 0 <= k < |events| ==> (events[k].visibleFrom <= generation <==> k < n)
    decreases |events|
  {
    if events == [] || events[|events| - 1].visibleFrom <= generation {
      n := |events|;
    } else {
      n := VisibleIsPrefix(events[..|events| - 1], generation);
    }
  }

  /** The log only grows, and what a generation shows is shown by every later one. */
  lemma {:induction false} LogOnlyGrows(s: State, ops: seq<Op>)
    ensures |s.events| <= |Run(s, ops).events| && Run(s, ops).events[..|s.events|] == s.events
    ensures s.generation <= Run(s, ops).generation
    ensures forall k: nat, g, h :: Visible(s, k, g) && g <= h ==> Visible(Run(s, ops), k, h)
    decreases |ops|
  {
    if ops != [] {
      var mid := Run(s, ops[..|ops| - 1]);
      LogOnlyGrows(s, ops[..|ops| - 1]);
      ApplyKeepsLog(mid, ops[|ops| - 1]);
      var t := Run(s, ops);
      assert forall k :: 0 <= k < |mid.events| ==> t.events[k] == mid.events[k];
      assert forall k :: 0 <= k < |s.events| ==> mid.events[k] == mid.events[..|s.events|][k];
    }
  }

  /** An event recorded during a run is not visible at any generation built before that run. */
  lemma {:induction false} NewEventsArePending(s: State, ops: seq<Op>, k: nat)
    requires |s.events| <= k < |Run(s, ops).events|
    ensures s.generation + k < Run(s, ops).events[k].visibleFrom
    decreases |ops|
  {
    if ops != [] {
      var mid := Run(s, ops[..|ops| - 1]);
      LogOnlyGrows(s, ops[..|ops| - 1]);
      ApplyKeepsLog(mid, ops[|ops| - 1]);
      if k < |mid.events| {
        NewEventsArePending(s, ops[..|ops| - 1], k);
        assert Run(s, ops).events[k] == mid.events[k];
      }
    }
  }

  ghost function Builds(n: nat): seq<Op>
  {
    seq(n, _ => Build)
  }

  lemma {:induction false} BuildsOnlyCount(s: State, n: nat)
    ensures Run(s, Builds(n)) == s.(generation := s.generation + n)
    decreases n
  {
    if n > 0 {
      assert Builds(n)[..n - 1] == Builds(n - 1) && Builds(n)[n - 1] == Build;
      BuildsOnlyCount(s, n - 1);
    }
  }

  /** An event recorded as number `k` of the log is first shown by the build that is `k + 1` builds
      away: by the very next one exactly when the log was empty. */
  lemma {:induction false} FirstVisible(s: State, op: Op, n: nat)
    requires Good(s) && Apply(s, op).events != s.events
    ensures var t := Run(Apply(s, op), Builds(n)); Visible(t, |s.events|, t.generation) <==> n > |s.events|
    ensures var t := Run(Apply(s, op), Builds(1)); Visible(t, |s.events|, t.generation) <==> s.events == []
  {
    ApplyKeepsLog(s, op);
    BuildsOnlyCount(Apply(s, op), n);
    BuildsOnlyCount(Apply(s, op), 1);
    assert !op.Build?;
  }

  /** As many further builds as there are events show the whole log (and by FirstVisible one build
      fewer does not when the last step recorded an event). */
  lemma {:induction false} BuildsShowEverything(s: State, n: nat)
    requires Good(s) && n >= |s.events|
    ensures var t := Run(s, Builds(n)); forall k :: 0 <= k < |s.events| ==> Visible(t, k, t.generation)
  {
    BuildsOnlyCount(s, n);
  }

  // ---------------------------------------------------------------- what the log says of winners

  /** The skill a step touches, and the scopes it may disturb. */
  ghost predicate Touches(s: State, op: Op, scope: string)
  {
    !op.Build? && var name := SkillName(op.name);
      InScope(s.skills, scope, name) || InScope(Apply(s, op).skills, scope, name)
  }

  lemma {:induction false} StoredDiffers(skills: Skills, name: string, skill: Skill)
    ensures DifferAt(skills, skills[name := skill], name)
  {
    assert skills[name := skill] - {name} == skills - {name};
  }

  lemma {:induction false} StepDiffers(s: State, op: Op)
    requires !op.Build?
    ensures DifferAt(s.skills, Apply(s, op).skills, SkillName(op.name))
  {
    match op
    case Upsert(raw, content, meta) =>
      StoredDiffers(s.skills, SkillName(raw), NewSkill(content, meta, "control_plane", "updated"));
    case Update(raw, content) =>
      if SkillName(raw) in s.skills {
        StoredDiffers(s.skills, SkillName(raw), Refreshed(s.skills[SkillName(raw)], content));
      }
    case Remove(raw) =>
      assert (s.skills - {SkillName(raw)}) - {SkillName(raw)} == s.skills - {SkillName(raw)};
  }

  lemma {:induction false} SameShown(before: Skills, after: Skills, scope: string)
    requires forall w :: IsWinner(before, scope, w) <==> IsWinner(after, scope, w)
    ensures WinnerShown(before, scope) == WinnerShown(after, scope)
  {
    if TrimSpace(scope) != "" {
      if w :| IsWinner(before, scope, w) {
        ShownIsWinner(before, scope, w);
        ShownIsWinner(after, scope, w);
      }
    }
  }

  /** A step changes the winner of no scope but the old and the new one of its skill. */
  lemma {:induction false} OtherScopesKeepWinner(s: State, op: Op, scope: string)
    requires !Touches(s, op, scope)
    ensures WinnerShown(Apply(s, op).skills, scope) == WinnerShown(s.skills, scope)
  {
    if !op.Build? {
      StepDiffers(s, op);
      UntouchedScope(s.skills, Apply(s, op).skills, SkillName(op.name), scope);
      SameWinners(s.skills, Apply(s, op).skills, scope);
      SameShown(s.skills, Apply(s, op).skills, scope);
    }
  }

  /** The step takes a skill out of a scope without removing it: the event names only its new
      scope. */
  ghost predicate Moves(s: State, op: Op)
  {
    op.Upsert? && var name := SkillName(op.name);
      name in s.skills && s.skills[name].meta.scope != Apply(s, op).skills[name].meta.scope
  }

  /** And the skill was the winner shown for that scope. */
  ghost predicate MovesWinner(s: State, op: Op)
  {
    Moves(s, op) && var name := SkillName(op.name);
      var scope := s.skills[name].meta.scope;
      TrimSpace(scope) != "" && IsWinner(s.skills, scope, name)
  }

  ghost predicate NeverMovesWinner(s: State, ops: seq<Op>)
  {
    forall k :: 0 <= k < |ops| ==> !MovesWinner(Run(s, ops[..k]), ops[k])
  }

  /** The winner that the log last reported for a scope. */
  ghost function LastReported(events: seq<Event>, scope: string, start: string): string
    decreases |events|
  {
    if events == [] then start
    else if events[|events| - 1].scope == scope then events[|events| - 1].winnerAfter
    else LastReported(events[..|events| - 1], scope, start)
  }

  /** From `s` to `t` either nothing was logged and the scope kept its winner, or one event was
      logged: its last word, if it speaks of the scope, is the scope's winner. */
  ghost predicate Tells(s: State, t: State, scope: string)
  {
    var was, now := WinnerShown(s.skills, scope), WinnerShown(t.skills, scope);
    if t.events == s.events then now == was
    else
      |t.events| == |s.events| + 1 && t.events[..|t.events| - 1] == s.events &&
      now == if t.events[|s.events|].scope == scope then t.events[|s.events|].winnerAfter else was
  }

  /** Taking a skill out of a scope that it had not won changes no winner of that scope. */
  lemma {:induction false} LoserLeaves(before: Skills, after: Skills, x: string, scope: string)
    requires DifferAt(before, after, x) && !IsWinner(before, scope, x) && !InScope(after, scope, x)
    ensures forall w :: IsWinner(before, scope, w) <==> IsWinner(after, scope, w)
  {
    forall n | n != x
      ensures Competes(before, scope, n) <==> Competes(after, scope, n)
      ensures n in before ==> n in after && before[n] == after[n]
    {
      SameElsewhere(before, after, x, n);
    }
    forall w | IsWinner(before, scope, w)
      ensures IsWinner(after, scope, w)
    {
    }
    forall w | IsWinner(after, scope, w)
      ensures IsWinner(before, scope, w)
    {
      assert Competes(before, scope, w);
      WinnerExistsIff(before, scope);
      var v :| IsWinner(before, scope, v);
      assert IsWinner(after, scope, v);
      OneWinner(after, scope, v, w);
    }
  }

  lemma {:induction false} EventTellsScope(s: State, op: Op, scope: string)
    requires !MovesWinner(s, op)
    ensures Tells(s, Apply(s, op), scope)
  {
    ApplyKeepsLog(s, op);
    var t := Apply(s, op);
    if op.Build? || t.events == s.events {
      assert t.skills == s.skills;
    } else if t.events[|t.events| - 1].scope != scope {
      if Touches(s, op, scope) {
        LeavesQuietly(s, op, scope);
      } else {
        OtherScopesKeepWinner(s, op, scope);
      }
    }
  }

  /** A moved skill leaves its old scope with the winner that scope had. */
  lemma {:induction false} LeavesQuietly(s: State, op: Op, scope: string)
    requires !MovesWinner(s, op) && Touches(s, op, scope)
    requires Apply(s, op).events != s.events && Apply(s, op).events[|s.events|].scope != scope
    ensures WinnerShown(Apply(s, op).skills, scope) == WinnerShown(s.skills, scope)
  {
    StepDiffers(s, op);
    if TrimSpace(scope) != "" {
      LoserLeaves(s.skills, Apply(s, op).skills, SkillName(op.name), scope);
      SameShown(s.skills, Apply(s, op).skills, scope);
    }
  }

  /** When the winner of a scope is moved elsewhere, that scope's winner changes and the event does
      not mention the scope. */
  lemma {:induction false} MovesGoUnreported(s: State, op: Op)
    requires Canonical(s.skills) && MovesWinner(s, op)
    ensures var t, scope := Apply(s, op), s.skills[SkillName(op.name)].meta.scope;
            && t.events != s.events && t.events[|s.events|].scope != scope
            && WinnerShown(t.skills, scope) != WinnerShown(s.skills, scope)
  {
    var name, t := SkillName(op.name), Apply(s, op);
    var scope := s.skills[name].meta.scope;
    CanonicalStep(s, op);
    ShownIsWinner(s.skills, scope, name);
    WinnerPathIsBelowSkills(name);
    if w :| IsWinner(t.skills, scope, w) {
      ShownIsWinner(t.skills, scope, w);
      WinnerPathIsBelowSkills(w);
      assert ("/skills/" + w)[8..] == w && ("/skills/" + name)[8..] == name;
    }
  }

  /** A step's event tells all there is to tell about winners exactly when the step does not move
      a scope's winner elsewhere. */
  lemma {:induction false} StepTellsIff(s: State, op: Op)
    requires Canonical(s.skills)
    ensures (forall scope :: Tells(s, Apply(s, op), scope)) <==> !MovesWinner(s, op)
  {
    if MovesWinner(s, op) {
      MovesGoUnreported(s, op);
      assert !Tells(s, Apply(s, op), s.skills[SkillName(op.name)].meta.scope);
    } else {
      forall scope
        ensures Tells(s, Apply(s, op), scope)
      {
        EventTellsScope(s, op, scope);
      }
    }
  }

  /** The log replays to the present: as long as no upsert moves a winner to another scope, what
      the log last reported for a scope is that scope's winner now. */
  lemma {:induction false} LogTellsWinner(s: State, ops: seq<Op>, scope: string)
    requires s.events == [] && NeverMovesWinner(s, ops)
    ensures WinnerShown(Run(s, ops).skills, scope) ==
            LastReported(Run(s, ops).events, scope, WinnerShown(s.skills, scope))
    decreases |ops|
  {
    if ops != [] {
      var init := ops[..|ops| - 1];
      forall k | 0 <= k < |init|
        ensures !MovesWinner(Run(s, init[..k]), init[k])
      {
        assert init[..k] == ops[..k] && init[k] == ops[k];
      }
      LogTellsWinner(s, init, scope);
      assert !MovesWinner(Run(s, init), ops[|ops| - 1]);
      EventTellsScope(Run(s, init), ops[|ops| - 1], scope);
    }
  }

  /** What the log last reported for the scope is its winner. */
  ghost predicate Told(s: State, t: State, scope: string)
  {
    WinnerShown(t.skills, scope) == LastReported(t.events, scope, WinnerShown(s.skills, scope))
  }

  /** After each prefix of the run, for each scope. */
  ghost predicate AlwaysTold(s: State, ops: seq<Op>)
  {
    forall k, scope :: 0 <= k <= |ops| ==> Told(s, Run(s, ops[..k]), scope)
  }

  /** Once a winner has been moved, the log is wrong about its old scope. */
  lemma {:induction false} MoveIsUntold(s: State, t: State, op: Op)
    requires Canonical(t.skills) && MovesWinner(t, op)
    requires Told(s, t, t.skills[SkillName(op.name)].meta.scope)
    ensures !Told(s, Apply(t, op), t.skills[SkillName(op.name)].meta.scope)
  {
    MovesGoUnreported(t, op);
    ApplyKeepsLog(t, op);
    var after := Apply(t, op).events;
    assert after[..|after| - 1] == t.events;
  }

  lemma {:induction false} RunOneMore(s: State, ops: seq<Op>, k: nat)
    requires k < |ops|
    ensures Run(s, ops[..k + 1]) == Apply(Run(s, ops[..k]), ops[k])
  {
    assert ops[..k + 1][..k] == ops[..k];
  }

  lemma {:induction false} ToldNeverMoves(s: State, ops: seq<Op>, k: nat)
    requires Initial(s) && AlwaysTold(s, ops) && k < |ops|
    ensures !MovesWinner(Run(s, ops[..k]), ops[k])
  {
    var t := Run(s, ops[..k]);
    ReachableIsGood(s, ops[..k]);
    RunOneMore(s, ops, k);
    if MovesWinner(t, ops[k]) {
      MoveIsUntold(s, t, ops[k]);
    }
  }

  /** The log tells every scope's winner all along a run exactly when no step of the run moves a
      winner to another scope. */
  lemma {:induction false} RunTellsIff(s: State, ops: seq<Op>)
    requires Initial(s)
    ensures AlwaysTold(s, ops) <==> NeverMovesWinner(s, ops)
  {
    if AlwaysTold(s, ops) {
      forall k | 0 <= k < |ops|
        ensures !MovesWinner(Run(s, ops[..k]), ops[k])
      {
        ToldNeverMoves(s, ops, k);
      }
    }
    if NeverMovesWinner(s, ops) {
      forall k, scope | 0 <= k <= |ops|
        ensures Told(s, Run(s, ops[..k]), scope)
      {
        NeverMovesBefore(s, ops, k);
        LogTellsWinner(s, ops[..k], scope);
      }
    }
  }

  lemma {:induction false} NeverMovesBefore(s: State, ops: seq<Op>, n: nat)
    requires NeverMovesWinner(s, ops) && n <= |ops|
    ensures NeverMovesWinner(s, ops[..n])
  {
    forall k | 0 <= k < n
      ensures !MovesWinner(Run(s, ops[..n][..k]), ops[..n][k])
    {
      assert ops[..n][..k] == ops[..k] && ops[..n][k] == ops[k];
    }
  }

  // ---------------------------------------------------------------- what a step stores and records

  /** An update stores the new content and leaves the metadata as it is, but for its source and
      freshness; every other skill stays. */
  lemma {:induction false} UpdateStores(s: State, raw: string, content: string)
    requires SkillName(raw) in s.skills
    ensures var name, after := SkillName(raw), Apply(s, Update(raw, content)).skills;
            && after.Keys == s.skills.Keys && after[name].content == content
            && after[name].meta == s.skills[name].meta.(source := "control_plane", freshness := "updated")
            && forall n :: n in s.skills && n != name ==> after[n] == s.skills[n]
  {
  }

  /** An upsert stores the content with the normalised metadata; every other skill stays. */
  lemma {:induction false} UpsertStores(s: State, raw: string, content: string, meta: RawMetadata)
    ensures var name, after := SkillName(raw), Apply(s, Upsert(raw, content, meta)).skills;
            && after.Keys == s.skills.Keys + {name} && after[name].content == content
            && after[name] == NewSkill(content, meta, "control_plane", "updated")
            && forall n :: n in s.skills && n != name ==> after[n] == s.skills[n]
  {
    MetadataIs(content, meta, "control_plane", "updated");
  }

  /** A removal takes the skill away and no other. */
  lemma {:induction false} RemoveTakesAway(s: State, raw: string)
    ensures var after := Apply(s, Remove(raw)).skills;
            after.Keys == s.skills.Keys - {SkillName(raw)} && forall n :: n in after ==> after[n] == s.skills[n]
  {
  }

  /** The winner shown for a scope: the path of its selected skill, nothing if it has none. */
  lemma {:induction false} WinnerShownIs(skills: Skills, scope: string, w: string)
    requires TrimSpace(scope) != "" && Canonical(skills)
    ensures w in skills && skills[w].meta.scope == scope && OutcomeOf(skills, w).selected ==>
              WinnerShown(skills, scope) == "/skills/" + w
    ensures (forall n :: n in skills && skills[n].meta.scope == scope ==> !OutcomeOf(skills, n).selected) ==>
              WinnerShown(skills, scope) == ""
  {
    assert scope != "" by {
      assert TrimSpace("") == "";
    }
    if w in skills && skills[w].meta.scope == scope && OutcomeOf(skills, w).selected {
      SelectedIff(skills, w);
      ShownIsWinner(skills, scope, w);
      WinnerPathIsBelowSkills(w);
    }
    if v :| IsWinner(skills, scope, v) {
      SelectedIff(skills, v);
    }
  }

  /** The event of a step: what was done to which skill, in which scope, and whether the skill was
      selected before and is selected after, with the reason it is given. */
  lemma {:induction false} EventSays(s: State, op: Op)
    requires Canonical(s.skills) && Apply(s, op).events != s.events
    ensures !op.Build?
    ensures var t, name := Apply(s, op), SkillName(op.name);
            var e := t.events[|s.events|];
            && |t.events| == |s.events| + 1
            && (e.kind == SkillRemoved <==> op.Remove?)
            && (e.kind == SkillAdded <==> op.Upsert? && name !in s.skills)
            && e.path == "/skills/" + name
            && e.scope == (if name in t.skills then t.skills[name].meta.scope else s.skills[name].meta.scope)
            && (e.selectedBefore <==> name in s.skills && OutcomeOf(s.skills, name).selected)
            && (e.selectedAfter <==> name in t.skills && OutcomeOf(t.skills, name).selected)
            && e.reasonAfter == (if name in t.skills then Some(OutcomeOf(t.skills, name).reason) else None)
            && e.winnerBefore == WinnerShown(s.skills, e.scope) && e.winnerAfter == WinnerShown(t.skills, e.scope)
  {
    if !op.Build? {
      SkillNameIsClean(op.name);
      WinnerPathIsBelowSkills(SkillName(op.name));
    }
  }
}
