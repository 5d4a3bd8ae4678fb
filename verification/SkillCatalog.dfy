/** How skill names and metadata are normalised before they enter the map, and what every name
    and every entry of the map therefore satisfies. */
module SkillCatalog {
  import opened LexicalPath
  import opened WhiteSpace
  import opened EnginePath
  import opened SkillSelection
  import opened SkillWinners

  /** Metadata as a caller gives it. */
  datatype RawMetadata = RawMetadata(source: string, freshness: string, eligibility: string, tier: string, rank: int,
                                     scope: string, selected: bool)

  /** Trim, clean below a root, drop the root; an empty name becomes the fallback. */
  function ProjectionName(name: string, fallback: string): string
  {
    var value := TrimSpace(name);
    if value == "" then fallback
    else
      var cleaned := CleanRooted("/" + value)[1..];
      if cleaned == "" || cleaned == "." then fallback else cleaned
  }

  /** path.Ext(value) != "" */
  predicate HasExtension(value: string)
  {
    var parts := Split(value);
    '.' in parts[|parts| - 1]
  }

  const DEFAULT_SKILL := "default/SKILL.md"

  /** A name without an extension is a directory; its path is already clean, so that path.Join
      only appends. */
  function SkillName(name: string): string
  {
    var value := ProjectionName(name, DEFAULT_SKILL);
    if value == DEFAULT_SKILL || HasExtension(value) then value else value + "/SKILL.md"
  }

  function KnownFreshness(raw: string): string
  {
    var value := TrimSpace(raw);
    if value in ["snapshot", "live", "stale", "updated", "generated"] then value else ""
  }

  function KnownEligibility(raw: string): Eligibility
  {
    match TrimSpace(raw)
    case "eligible" => Eligible
    case "ineligible" => Ineligible
    case _ => UnknownEligibility
  }

  function KnownTier(raw: string): Tier
  {
    match TrimSpace(raw)
    case "workspace" => Workspace
    case "user" => User
    case _ => Bundled
  }

  function KnownRank(raw: RawMetadata): int
  {
    var rank := if raw.rank < 0 then 0 else raw.rank;
    if rank == 0 && TrimSpace(raw.tier) == "" then 100 else rank
  }

  function NewSkill(content: string, raw: RawMetadata, defaultSource: string, defaultFreshness: string): Skill
  {
    var source := if TrimSpace(raw.source) == "" then defaultSource else TrimSpace(raw.source);
    var known := KnownFreshness(raw.freshness);
    var freshness := if known == "" then KnownFreshness(defaultFreshness) else known;
    var eligibility := KnownEligibility(raw.eligibility);
    Skill(content, Metadata(source, freshness, eligibility, KnownTier(raw.tier), KnownRank(raw),
                            ProjectionName(raw.scope, ""), raw.selected && eligibility.Eligible?))
  }

  // ---------------------------------------------------------------- names

  /** A name is a relative path of proper components. */
  ghost predicate CleanName(name: string)
  {
    exists parts :: parts != [] && AllNames(parts) && "/" + name == Joined(parts)
  }

  lemma {:induction false} ProjectionNameIsClean(name: string, fallback: string)
    ensures ProjectionName(name, fallback) == fallback || CleanName(ProjectionName(name, fallback))
  {
    var value := TrimSpace(name);
    var parts := Resolve([], Split("/" + value));
    SplitParts("/" + value);
    ResolveKeepsNames([], Split("/" + value));
    if parts != [] {
      assert Joined(parts)[0] == '/' && "/" + Joined(parts)[1..] == Joined(parts);
    }
  }

  lemma {:induction false} WithFile(value: string)
    requires CleanName(value)
    ensures CleanName(value + "/SKILL.md")
  {
    var parts :| parts != [] && AllNames(parts) && "/" + value == Joined(parts);
    JoinedLength(parts, ["SKILL.md"]);
    assert Joined(["SKILL.md"]) == "/SKILL.md" by {
      assert ["SKILL.md"][1..] == [];
    }
    assert "/" + (value + "/SKILL.md") == Joined(parts + ["SKILL.md"]);
  }

  lemma {:induction false} DefaultIsClean()
    ensures CleanName(DEFAULT_SKILL)
  {
    var parts := ["default", "SKILL.md"];
    assert parts[1..] == ["SKILL.md"] && ["SKILL.md"][1..] == [];
    assert Joined(["SKILL.md"]) == "/SKILL.md";
    assert Joined(parts) == "/" + DEFAULT_SKILL;
  }

  lemma {:induction false} DotInPart(s: string)
    requires exists p :: p in Split(s) && '.' in p
    ensures '.' in s
    decreases |s|
  {
    if s != "" {
      var p :| p in Split(s) && '.' in p;
      var rest := Split(s[1..]);
      if s[0] == '/' || p in rest[1..] {
        assert p in rest;
        DotInPart(s[1..]);
      } else if s[0] != '.' {
        assert p == [s[0]] + rest[0];
        assert '.' in rest[0];
        DotInPart(s[1..]);
      }
    }
  }

  /** Every name under which a skill is stored is clean and never blank. */
  lemma {:induction false} SkillNameIsClean(name: string)
    ensures CleanName(SkillName(name)) && TrimSpace(SkillName(name)) != ""
  {
    var value, r := ProjectionName(name, DEFAULT_SKILL), SkillName(name);
    ProjectionNameIsClean(name, DEFAULT_SKILL);
    DefaultIsClean();
    if value == DEFAULT_SKILL {
      assert r[0] == 'd';
      KeepsText(r, 0);
    } else if HasExtension(value) {
      var parts := Split(value);
      assert parts[|parts| - 1] in parts;
      DotInPart(value);
      var k :| 0 <= k < |r| && r[k] == '.';
      KeepsText(r, k);
    } else {
      WithFile(value);
      assert r[|value|] == '/';
      KeepsText(r, |value|);
    }
  }

  lemma {:induction false} SkillNameIsGiven(name: string)
    ensures SkillName(name) != ""
  {
    SkillNameIsClean(name);
    assert TrimSpace("") == "";
  }

  /** The path shown for a skill is its name below /skills, so different skills have different
      paths. */
  lemma {:induction false} WinnerPathIsBelowSkills(name: string)
    requires CleanName(name) && TrimSpace(name) != ""
    ensures WinnerPath(name) == "/skills/" + name
  {
    var parts :| parts != [] && AllNames(parts) && "/" + name == Joined(parts);
    var all := ["skills"] + parts;
    assert all[1..] == parts;
    assert "/skills/" + name == "/" + ("skills" + ("/" + name)) == Joined(all);
    ResolveAbsolute([], all);
    assert [] + all == all;
  }

  // ---------------------------------------------------------------- entries

  /** What every entry of the map satisfies. */
  ghost predicate Canonical(skills: Skills)
  {
    forall n :: n in skills ==> CleanName(n) && TrimSpace(n) != "" && CanonicalMeta(skills[n].meta)
  }

  predicate CanonicalMeta(meta: Metadata)
  {
    !meta.tier.OtherTier? && !meta.eligibility.OtherState? && meta.rank >= 0 &&
    (meta.selected ==> meta.eligibility.Eligible?)
  }

  lemma {:induction false} NewSkillIsCanonical(content: string, raw: RawMetadata, source: string, freshness: string)
    ensures CanonicalMeta(NewSkill(content, raw, source, freshness).meta)
  {
  }

  /** In a canonical map the loser of a scope always names the winner, by its full path, and never
      claims that there was none. */
  lemma {:induction false} CanonicalLosers(skills: Skills, name: string, winner: string)
    requires Canonical(skills) && name in skills && skills[name].meta.scope != "" && IsEligible(skills, name)
    requires IsWinner(skills, skills[name].meta.scope, winner) && name != winner
    ensures OutcomeOf(skills, name).winnerPath == "/skills/" + winner
    ensures OutcomeOf(skills, name).reason ==
            if SamePrecedence(skills, name, winner) then TieBreakPathOrder else HigherPrecedenceSelected
  {
    LosersNameWinner(skills, name, winner);
    WinnerPathIsBelowSkills(winner);
    assert TrimSpace("") == "";
  }

  lemma {:induction false} CanonicalTies(skills: Skills, name: string)
    requires Canonical(skills) && name in skills && skills[name].meta.scope != ""
    requires IsWinner(skills, skills[name].meta.scope, name)
    ensures OutcomeOf(skills, name).reason ==
            if exists n :: Competes(skills, skills[name].meta.scope, n) && n != name && SamePrecedence(skills, name, n)
            then TieBreakPathOrder else HighestPrecedence
  {
    TieIffShared(skills, name);
  }

  // ---------------------------------------------------------------- what names and metadata become

  /** The text of some names: "a/b" for a and b. */
  ghost predicate IsNameText(text: string, parts: seq<string>)
  {
    parts != [] && AllNames(parts) && "/" + text == Joined(parts) && TrimSpace(text) == text
  }

  lemma {:induction false} NameTextSplits(text: string, parts: seq<string>)
    requires IsNameText(text, parts)
    ensures Split(text) == parts && Split("/" + text) == [""] + parts
  {
    assert AllSlashFree(parts) by {
      assert forall p :: p in parts ==> IsName(p);
    }
    SplitJoined(parts);
    SplitAtSlash("", text);
    assert "" + ("/" + text) == "/" + text && Split("") == [""];
    assert ([""] + Split(text))[1..] == Split(text) && ([""] + parts)[1..] == parts;
  }

  lemma {:induction false} NoEmptyNameText(text: string, parts: seq<string>)
    requires IsNameText(text, parts)
    ensures text != "" && text != "."
  {
    NameTextSplits(text, parts);
    assert IsName(parts[0]) by {
      assert parts[0] in parts;
    }
    SplitName(".");
    assert Split("") == [""];
  }

  lemma {:induction false} NameTextKept(text: string, parts: seq<string>, fallback: string)
    requires IsNameText(text, parts)
    ensures ProjectionName(text, fallback) == text
  {
    NoEmptyNameText(text, parts);
    NameTextSplits(text, parts);
    ResolveNames([], parts);
    assert ([""] + parts)[1..] == parts && [] + parts == parts;
    assert ("/" + text)[1..] == text;
  }

  lemma {:induction false} DotAtEnd(text: string, front: string, name: string, parts: seq<string>)
    requires text == front + ("/" + name) && NoSlash(name) && '.' in name && Split(text) == parts
    ensures '.' in parts[|parts| - 1]
  {
    SplitAtSlash(front, name);
    SplitName(name);
  }

  lemma {:induction false} DefaultEnds(text: string) returns (front: string, name: string)
    requires text == DEFAULT_SKILL
    ensures text == front + ("/" + name) && NoSlash(name) && '.' in name
  {
    front, name := "default", "SKILL.md";
    assert name[5] == '.';
  }

  lemma {:induction false} DefaultHasDot(text: string, parts: seq<string>)
    requires text == DEFAULT_SKILL && Split(text) == parts
    ensures '.' in parts[|parts| - 1]
  {
    var front, name := DefaultEnds(text);
    DotAtEnd(text, front, name, parts);
  }

  lemma {:induction false} SkillNameCases(text: string)
    requires ProjectionName(text, DEFAULT_SKILL) == text
    ensures SkillName(text) == if text == DEFAULT_SKILL || HasExtension(text) then text else text + "/SKILL.md"
  {
  }

  lemma {:induction false} ExtensionIs(text: string, parts: seq<string>)
    requires Split(text) == parts
    ensures HasExtension(text) <==> '.' in parts[|parts| - 1]
  {
  }

  /** A skill is stored under the path of a file: a name whose last part has a dot names the file, any
      other one names the directory of its SKILL.md, and a blank one is the default skill. */
  lemma {:induction false} SkillNameIs(text: string, parts: seq<string>)
    requires IsNameText(text, parts)
    ensures SkillName(text) == if '.' in parts[|parts| - 1] then text else text + "/SKILL.md"
  {
    NameTextKept(text, parts, DEFAULT_SKILL);
    NameTextSplits(text, parts);
    SkillNameCases(text);
    ExtensionIs(text, parts);
    if text == DEFAULT_SKILL {
      DefaultHasDot(text, parts);
    }
  }

  lemma {:induction false} BlankSkillName(text: string)
    requires TrimSpace(text) == ""
    ensures SkillName(text) == "default/SKILL.md"
  {
  }

  function EligibilityText(e: Eligibility): string
  {
    match e
    case Eligible => "eligible"
    case Ineligible => "ineligible"
    case UnknownEligibility => "unknown"
    case OtherState(text) => text
  }

  function TierText(t: Tier): string
  {
    match t
    case Workspace => "workspace"
    case User => "user"
    case Bundled => "bundled"
    case OtherTier(text) => text
  }

  /** Known texts are kept; any other eligibility is unknown, any other tier is bundled, a negative rank
      is 0, and a rank of 0 without a tier is 100. Only an eligible skill may be selected. A freshness that
      is not known is the default one. */
  lemma {:induction false} MetadataIs(content: string, raw: RawMetadata, source: string, freshness: string)
    ensures var skill := NewSkill(content, raw, source, freshness);
            var meta, e, t := skill.meta, TrimSpace(raw.eligibility), TrimSpace(raw.tier);
            && skill.content == content
            && (e in ["eligible", "ineligible"] ==> EligibilityText(meta.eligibility) == e)
            && (e !in ["eligible", "ineligible"] ==> EligibilityText(meta.eligibility) == "unknown")
            && (t in ["workspace", "user"] ==> TierText(meta.tier) == t)
            && (t !in ["workspace", "user"] ==> TierText(meta.tier) == "bundled")
            && (raw.rank > 0 ==> meta.rank == raw.rank)
            && (raw.rank <= 0 ==> meta.rank == if t == "" then 100 else 0)
            && (meta.selected <==> raw.selected && e == "eligible")
            && (TrimSpace(raw.source) != "" ==> meta.source == TrimSpace(raw.source))
            && (TrimSpace(raw.source) == "" ==> meta.source == source)
    ensures var f := TrimSpace(raw.freshness);
            NewSkill(content, raw, source, freshness).meta.freshness ==
              if f in ["snapshot", "live", "stale", "updated", "generated"] then f
              else if TrimSpace(freshness) in ["snapshot", "live", "stale", "updated", "generated"]
                   then TrimSpace(freshness) else ""
  {
    var e, t := TrimSpace(raw.eligibility), TrimSpace(raw.tier);
    assert EligibilityText(KnownEligibility(raw.eligibility)) ==
           if e in ["eligible", "ineligible"] then e else "unknown";
    assert TierText(KnownTier(raw.tier)) == if t in ["workspace", "user"] then t else "bundled";
  }

  /** A scope is kept as it is named, and a blank one is none. */
  lemma {:induction false} ScopeIs(content: string, raw: RawMetadata, source: string, freshness: string,
                                   parts: seq<string>)
    ensures TrimSpace(raw.scope) == "" ==> NewSkill(content, raw, source, freshness).meta.scope == ""
    ensures IsNameText(raw.scope, parts) ==> NewSkill(content, raw, source, freshness).meta.scope == raw.scope
  {
    if IsNameText(raw.scope, parts) {
      NameTextKept(raw.scope, parts, "");
    }
  }
}
