/** The control plane of the reference adapter: skills are upserted, updated and removed, every
    applied change is logged, and projection builds advance a generation counter. */
module ControlPlane {
  import opened Prelude
  import opened WhiteSpace
  import opened SkillSelection
  import opened SkillWinners
  import opened SkillCatalog

  datatype Kind = SkillAdded | SkillUpdated | SkillRemoved

  const APPLIED := "applied"
  const NEXT_REBUILD := "next_projection_rebuild"

  datatype Event = Event(seq_: int, kind: Kind, path: string, scope: string,
                         result: string, visibleAfter: string, visibleFrom: int,
                         selectedBefore: bool, selectedAfter: bool, winnerBefore: string, winnerAfter: string,
                         reasonAfter: Option<Reason>)

  datatype State = State(skills: Skills, events: seq<Event>, generation: int, lastSeq: int)

  datatype Op =
    | Upsert(name: string, content: string, raw: RawMetadata)
    | Update(name: string, content: string)
    | Remove(name: string)
    | Build

  // ---------------------------------------------------------------- one step, as promised

  function EventScope(name: string, before: Skills, after: Skills): string
  {
    if name in after then after[name].meta.scope
    else if name in before then before[name].meta.scope
    else ""
  }

  /** The path of a scope's winner; empty for a blank scope or one without a winner. */
  ghost function WinnerShown(skills: Skills, scope: string): string
  {
    if TrimSpace(scope) != "" && exists w :: IsWinner(skills, scope, w) then
      var w :| IsWinner(skills, scope, w);
      WinnerPath(w)
    else ""
  }

  ghost function ReasonShown(skills: Skills, name: string): Option<Reason>
  {
    if name in skills then Some(OutcomeOf(skills, name).reason) else None
  }

  ghost function EventOf(kind: Kind, name: string, before: Skills, after: Skills, seq_: int, visibleFrom: int): Event
  {
    var scope := EventScope(name, before, after);
    Event(seq_, kind, WinnerPath(name), scope, APPLIED, NEXT_REBUILD, visibleFrom,
          Selected(before, name), Selected(after, name),
          WinnerShown(before, scope), WinnerShown(after, scope), ReasonShown(after, name))
  }

  /** The event that records a change of the map while `s` is the state. */
  ghost function EventFor(s: State, kind: Kind, name: string, after: Skills): Event
  {
    EventOf(kind, name, s.skills, after, s.lastSeq + 1, s.generation + 1 + |s.events|)
  }

  ghost function Changed(s: State, kind: Kind, name: string, after: Skills): State
  {
    State(after, s.events + [EventFor(s, kind, name, after)], s.generation, s.lastSeq + 1)
  }

  function Refreshed(skill: Skill, content: string): Skill
  {
    skill.(content := content, meta := skill.meta.(source := "control_plane", freshness := "updated"))
  }

  ghost function Apply(s: State, op: Op): State
  {
    match op
    case Upsert(raw, content, meta) =>
      var name := SkillName(raw);
      var after := s.skills[name := NewSkill(content, meta, "control_plane", "updated")];
      Changed(s, if name in s.skills then SkillUpdated else SkillAdded, name, after)
    case Update(raw, content) =>
      var name := SkillName(raw);
      if name !in s.skills then s
      else Changed(s, SkillUpdated, name, s.skills[name := Refreshed(s.skills[name], content)])
    case Remove(raw) =>
      var name := SkillName(raw);
      if name !in s.skills then s else Changed(s, SkillRemoved, name, s.skills - {name})
    case Build => s.(generation := s.generation + 1)
  }

  // ---------------------------------------------------------------- the adapter

  const NO_METADATA := RawMetadata("", "", "", "", 0, "", false)

  /** What the caller gives for the skill stored as `n`: nothing, or one of the entries whose name
      normalises to `n`. */
  ghost predicate GivenFor(metadata: map<string, RawMetadata>, n: string, m: RawMetadata)
  {
    if exists k :: k in metadata && SkillName(k) == n then
      exists k :: k in metadata && SkillName(k) == n && metadata[k] == m
    else m == NO_METADATA
  }

  ghost predicate LoadedAs(contents: map<string, string>, metadata: map<string, RawMetadata>, n: string, skill: Skill)
  {
    exists k, m :: LoadedFrom(contents, metadata, n, skill, k, m)
  }

  ghost predicate LoadedFrom(contents: map<string, string>, metadata: map<string, RawMetadata>, n: string, skill: Skill,
                             k: string, m: RawMetadata)
  {
    && k in contents && SkillName(k) == n && GivenFor(metadata, n, m)
    && skill == NewSkill(contents[k], m, "skill_bundle", "snapshot")
  }

  /** The skills of a bundle: one for each normalised name, with a content and the metadata given
      under that name. */
  ghost predicate Loaded(contents: map<string, string>, metadata: map<string, RawMetadata>, skills: Skills)
  {
    && (forall k :: k in contents ==> SkillName(k) in skills)
    && (forall n :: n in skills ==> LoadedAs(contents, metadata, n, skills[n]))
  }

  /** The metadata under normalised names; no normalised name is blank. */
  method NormalizeMetadata(metadata: map<string, RawMetadata>) returns (named: map<string, RawMetadata>)
    ensures forall n :: GivenFor(metadata, n, if n in named then named[n] else NO_METADATA)
  {
    named := map[];
    var remaining := metadata.Keys;
    while remaining != {}
      invariant remaining <= metadata.Keys
      invariant forall k :: k in metadata && k !in remaining ==> SkillName(k) in named
      invariant forall n :: n in named ==> exists k :: k in metadata && SkillName(k) == n && metadata[k] == named[n]
      decreases |remaining|
    {
      var key :| key in remaining;
      remaining := remaining - {key};
      named := named[SkillName(key) := metadata[key]];
    }
  }

  method LoadSkills(contents: map<string, string>, metadata: map<string, RawMetadata>) returns (skills: Skills)
    ensures Loaded(contents, metadata, skills)
  {
    var named := NormalizeMetadata(metadata);
    skills := map[];
    var remaining := contents.Keys;
    while remaining != {}
      invariant remaining <= contents.Keys
      invariant forall k :: k in contents && k !in remaining ==> SkillName(k) in skills
      invariant forall n :: n in skills ==> LoadedAs(contents, metadata, n, skills[n])
      decreases |remaining|
    {
      var key :| key in remaining;
      remaining := remaining - {key};
      var name := SkillName(key);
      var meta := if name in named then named[name] else NO_METADATA;
      assert GivenFor(metadata, name, meta);
      skills := skills[name := NewSkill(contents[key], meta, "skill_bundle", "snapshot")];
      assert LoadedFrom(contents, metadata, name, skills[name], key, meta);
    }
  }

  /** The winner's path, found by scanning the map in an arbitrary order. */
  method WinnerForScope(scope: string, skills: Skills, outcomes: Outcomes) returns (path: string)
    requires outcomes.Keys == skills.Keys && forall n :: n in skills ==> outcomes[n] == OutcomeOf(skills, n)
    ensures path == WinnerShown(skills, scope)
  {
    if TrimSpace(scope) == "" {
      return "";
    }
    assert scope != "";
    OneSelected(skills, scope);
    var remaining := skills.Keys;
    while remaining != {}
      invariant remaining <= skills.Keys
      invariant forall n :: n in skills.Keys - remaining ==> n !in SelectedIn(skills, scope)
      decreases |remaining|
    {
      var name :| name in remaining;
      remaining := remaining - {name};
      if skills[name].meta.scope != scope {
        continue;
      }
      if outcomes[name].selected {
        assert name in SelectedIn(skills, scope);
        ShownIsWinner(skills, scope, name);
        return WinnerPath(name);
      }
    }
    return "";
  }

  /** What an event records of the skills on one side of a change. */
  method Observe(skills: Skills, name: string, scope: string)
    returns (selected: bool, winner: string, reason: Option<Reason>)
    ensures selected == Selected(skills, name)
    ensures winner == WinnerShown(skills, scope)
    ensures reason == ReasonShown(skills, name)
  {
    var outcomes := DeriveOutcomes(skills);
    winner := WinnerForScope(scope, skills, outcomes);
    selected := name in outcomes && outcomes[name].selected;
    reason := if name in outcomes then Some(outcomes[name].reason) else None;
  }

  method MakeEvent(kind: Kind, name: string, before: Skills, after: Skills, seq_: int, visibleFrom: int)
    returns (event: Event)
    ensures event == EventOf(kind, name, before, after, seq_, visibleFrom)
  {
    var scope := EventScope(name, before, after);
    var selectedBefore, winnerBefore, _ := Observe(before, name, scope);
    var selectedAfter, winnerAfter, reasonAfter := Observe(after, name, scope);
    return Event(seq_, kind, WinnerPath(name), scope, APPLIED, NEXT_REBUILD, visibleFrom,
                 selectedBefore, selectedAfter, winnerBefore, winnerAfter, reasonAfter);
  }

  lemma {:induction false} ShownIsWinner(skills: Skills, scope: string, w: string)
    requires IsWinner(skills, scope, w) && TrimSpace(scope) != ""
    ensures WinnerShown(skills, scope) == WinnerPath(w)
  {
    var v :| IsWinner(skills, scope, v) && WinnerShown(skills, scope) == WinnerPath(v);
    OneWinner(skills, scope, v, w);
  }

  /** How an event appears in a projection of some generation. */
  datatype View = View(event: Event, visible: bool)

  class Adapter {
    var skills: Skills
    var events: seq<Event>
    var projectionSeq: int
    var controlPlaneSeq: int

    ghost function Now(): State
      reads this
    {
      State(skills, events, projectionSeq, controlPlaneSeq)
    }

    /** The bundle is normalised in whatever order its two maps yield it. */
    constructor (contents: map<string, string>, metadata: map<string, RawMetadata>)
      ensures Now() == State(skills, [], 0, 0) && Loaded(contents, metadata, skills)
    {
      var loaded := LoadSkills(contents, metadata);
      skills := loaded;
      events := [];
      projectionSeq, controlPlaneSeq := 0, 0;
    }

    method AppendEvent(kind: Kind, name: string, before: Skills, after: Skills)
      modifies this`events, this`controlPlaneSeq
      ensures controlPlaneSeq == old(controlPlaneSeq) + 1
      ensures var was := State(before, old(events), projectionSeq, old(controlPlaneSeq));
              events == old(events) + [EventFor(was, kind, name, after)]
    {
      controlPlaneSeq := controlPlaneSeq + 1;
      var event := MakeEvent(kind, name, before, after, controlPlaneSeq, projectionSeq + 1 + |events|);
      events := events + [event];
    }

    method UpsertSkill(raw: string, content: string, meta: RawMetadata)
      modifies this
      ensures Now() == Apply(old(Now()), Upsert(raw, content, meta))
    {
      var before := skills;
      var name := SkillName(raw);
      skills := skills[name := NewSkill(content, meta, "control_plane", "updated")];
      var kind := SkillAdded;
      if name in before {
        kind := SkillUpdated;
      }
      AppendEvent(kind, name, before, skills);
    }

    method UpdateSkill(raw: string, content: string)
      modifies this
      ensures Now() == Apply(old(Now()), Update(raw, content))
    {
      var name := SkillName(raw);
      var before := skills;
      if name !in before {
        return;
      }
      skills := skills[name := Refreshed(before[name], content)];
      AppendEvent(SkillUpdated, name, before, skills);
    }

    method RemoveSkill(raw: string)
      modifies this
      ensures Now() == Apply(old(Now()), Remove(raw))
    {
      var name := SkillName(raw);
      if name == "" || |skills| == 0 {
        SkillNameIsGiven(raw);
        return;
      }
      var before := skills;
      if name !in before {
        return;
      }
      skills := skills - {name};
      AppendEvent(SkillRemoved, name, before, skills);
    }

    method BeginProjectionBuild() returns (generation: int, snapshot: seq<Event>)
      modifies this`projectionSeq
      ensures Now() == Apply(old(Now()), Build)
      ensures generation == projectionSeq && snapshot == events
    {
      projectionSeq := projectionSeq + 1;
      return projectionSeq, events;
    }
  }

  /** The log as a projection of the given generation shows it. */
  method ControlPlaneEventViews(events: seq<Event>, generation: int) returns (views: seq<View>)
    ensures |views| == |events|
    ensures forall k :: 0 <= k < |events| ==> views[k] == View(events[k], events[k].visibleFrom <= generation)
  {
    views := [];
    for k := 0 to |events|
      invariant |views| == k
      invariant forall j :: 0 <= j < k ==> views[j] == View(events[j], events[j].visibleFrom <= generation)
    {
      var visible := true;
      if generation < events[k].visibleFrom {
        visible := false;
      }
      views := views + [View(events[k], visible)];
    }
  }
}
