/** Reading many paths at once: requests are grouped by mount, each group is read in bulk or
    path by path, and the answers are dealt out again in request order. */
module BatchRead {
  import opened Prelude
  import opened MountRouter
  import EnginePath

  datatype Entry = Entry(path: string, content: string)

  datatype Latency = LocalFast | LocalHeavy | RemoteModerate | RemoteHigh

  /** The part of a mount's declared profile that a bulk read consults. */
  datatype Profile = Profile(maxBatchCount: int, canRead: bool, canBulkRead: bool, latency: Latency)

  type BulkReader = (seq<string>, nat) -> Result<seq<Entry>, string>

  /** The mounts and the file system below them. */
  datatype Env = Env(
    router: seq<Mounted>,
    profile: Mounted -> Profile,
    readMount: (Mounted, string) -> Result<string, string>,
    bulkMount: Mounted -> Option<BulkReader>,
    readFs: string -> Result<string, string>,
    bulkFs: Option<seq<string> -> Result<seq<Entry>, string>>)

  // ---------------------------------------------------------------- one path

  /** The mount a path belongs to, if that mount exists right now; routing normalises the path it
      is given once more. */
  function ActiveFor(env: Env, path: string): Result<Option<Mounted>, string>
  {
    var m := MatchIn(env.router, EnginePath.EngineNormalize(path));
    if m.None? then Ok(None)
    else if m.value.mount.status.Err? then Err(m.value.mount.status.error)
    else Ok(if m.value.mount.status.value then m else None)
  }

  /** What routing makes of a normalised path. */
  function ReadOne(env: Env, path: string): Result<string, string>
  {
    var active :- ActiveFor(env, path);
    if active.Some? then env.readMount(active.value, path) else env.readFs(path)
  }

  /** Reading one request alone. */
  function ReadRaw(env: Env, pathValue: string): Result<string, string>
  {
    ReadOne(env, EnginePath.EngineNormalize(pathValue))
  }

  /** Where the content of a path comes from: the longest mount point that owns it, unless that
      mount is absent, or else the file system. */
  lemma {:induction false} ReadOneIsRouted(env: Env, path: string, m: Mounted)
    requires Accepted(env.router)
    ensures IsLongestOwner(env.router, EnginePath.EngineNormalize(path), m) ==>
              ReadOne(env, path) ==
                if m.mount.status.Err? then Err(m.mount.status.error)
                else if m.mount.status.value then env.readMount(m, path) else env.readFs(path)
    ensures (forall other :: other in env.router ==> !Owns(other.point, EnginePath.EngineNormalize(path))) ==>
              ReadOne(env, path) == env.readFs(path)
  {
    var routed := EnginePath.EngineNormalize(path);
    MatchIsLongest(env.router, routed);
    if IsLongestOwner(env.router, routed, m) {
      LongestOwnerIsUnique(env.router, routed, m, MatchIn(env.router, routed).value);
    }
  }

  method ReadRawContent(env: Env, pathValue: string) returns (r: Result<string, string>)
    ensures r == ReadRaw(env, pathValue)
  {
    var path := EnginePath.EngineNormalize(pathValue);
    var active := ActiveFor(env, path);
    if active.Err? {
      return Err(active.error);
    }
    if active.value.Some? {
      return env.readMount(active.value.value, path);
    }
    return env.readFs(path);
  }

  // ---------------------------------------------------------------- one mount

  /** Does the mount's profile admit a bulk read of `n` paths? */
  predicate Admits(p: Profile, n: nat) {
    && !(p.maxBatchCount > 0 && n > p.maxBatchCount)
    && (if n > 1 then p.canBulkRead else p.canRead)
  }

  predicate AllowsFallback(p: Profile) {
    p.latency.LocalFast? || p.latency.LocalHeavy?
  }

  function ReadEach(env: Env, m: Mounted, paths: seq<string>, done: seq<Entry>): Result<seq<Entry>, string>
    decreases |paths|
  {
    if paths == [] then Ok(done)
    else
      var content :- env.readMount(m, paths[0]);
      ReadEach(env, m, paths[1..], done + [Entry(paths[0], content)])
  }

  function MountReadMany(env: Env, m: Mounted, paths: seq<string>): Result<seq<Entry>, string>
  {
    var p := env.profile(m);
    if !Admits(p, |paths|) then Err("refused")
    else if env.bulkMount(m).Some? then env.bulkMount(m).value(paths, |paths|)
    else if !AllowsFallback(p) then Err("unsupported")
    else ReadEach(env, m, paths, [])
  }

  method ReadManyFromMount(env: Env, m: Mounted, paths: seq<string>) returns (r: Result<seq<Entry>, string>)
    ensures r == MountReadMany(env, m, paths)
  {
    var p := env.profile(m);
    if !Admits(p, |paths|) {
      return Err("refused");
    }
    var bulk := env.bulkMount(m);
    if bulk.Some? {
      return bulk.value(paths, |paths|);
    }
    if !AllowsFallback(p) {
      return Err("unsupported");
    }
    var files: seq<Entry> := [];
    assert paths[0..] == paths;
    for k := 0 to |paths|
      invariant ReadEach(env, m, paths, []) == ReadEach(env, m, paths[k..], files)
    {
      assert paths[k..][1..] == paths[k + 1..];
      var content := env.readMount(m, paths[k]);
      if content.Err? {
        return Err(content.error);
      }
      files := files + [Entry(paths[k], content.value)];
    }
    return Ok(files);
  }

  /** The mount refuses a batch above its limit, if it has one, and one that its command class does not
      cover: bulk reading for several paths, plain reading for one. */
  ghost predicate Refuses(p: Profile, n: nat)
  {
    (p.maxBatchCount > 0 && n > p.maxBatchCount) || (n > 1 && !p.canBulkRead) || (n <= 1 && !p.canRead)
  }

  lemma {:induction false} ReadEachIs(env: Env, m: Mounted, paths: seq<string>, done: seq<Entry>)
    ensures var r := ReadEach(env, m, paths, done);
            && (r.Ok? <==> forall p :: p in paths ==> env.readMount(m, p).Ok?)
            && (r.Ok? ==> |r.value| == |done| + |paths| && r.value[..|done|] == done)
            && (r.Ok? ==> forall k :: 0 <= k < |paths| ==>
                            r.value[|done| + k].path == paths[k] &&
                            env.readMount(m, paths[k]) == Ok(r.value[|done| + k].content))
    decreases |paths|
  {
    if paths != [] {
      var content := env.readMount(m, paths[0]);
      assert paths[0] in paths && forall p :: p in paths <==> p == paths[0] || p in paths[1..];
      if content.Ok? {
        var done' := done + [Entry(paths[0], content.value)];
        ReadEachIs(env, m, paths[1..], done');
        var r := ReadEach(env, m, paths[1..], done');
        if r.Ok? {
          assert r.value[..|done|] == r.value[..|done'|][..|done|] == done;
          assert r.value[|done|] == r.value[..|done'|][|done|];
          forall k | 1 <= k < |paths|
            ensures r.value[|done| + k].path == paths[k]
            ensures env.readMount(m, paths[k]) == Ok(r.value[|done| + k].content)
          {
            assert paths[1..][k - 1] == paths[k] && r.value[|done'| + (k - 1)] == r.value[|done| + k];
          }
        }
      }
    }
  }

  /** What a mount makes of a batch: refused, its bulk reader's answer, an error if it has none and is
      remote, or else one entry for each path, read alone. */
  lemma {:induction false} MountReadManyIs(env: Env, m: Mounted, paths: seq<string>)
    ensures var p, r := env.profile(m), MountReadMany(env, m, paths);
            && (Refuses(p, |paths|) ==> r.Err?)
            && (!Refuses(p, |paths|) && env.bulkMount(m).Some? ==> r == env.bulkMount(m).value(paths, |paths|))
            && (env.bulkMount(m).None? && (p.latency.RemoteModerate? || p.latency.RemoteHigh?) ==> r.Err?)
            && (!Refuses(p, |paths|) && env.bulkMount(m).None? && (p.latency.LocalFast? || p.latency.LocalHeavy?) ==>
                  && (r.Ok? <==> forall q :: q in paths ==> env.readMount(m, q).Ok?)
                  && (r.Ok? ==> |r.value| == |paths| && forall k :: 0 <= k < |paths| ==>
                                  r.value[k].path == paths[k] && env.readMount(m, paths[k]) == Ok(r.value[k].content)))
  {
    ReadEachIs(env, m, paths, []);
  }

  // ---------------------------------------------------------------- what backends promise

  /** A path that normalisation leaves alone. */
  predicate Stable(path: string) {
    EnginePath.EngineNormalize(path) == path
  }

  predicate AllStable(paths: seq<string>) {
    forall p :: p in paths ==> Stable(p)
  }

  /** An answer that reading its path alone would give too. */
  predicate Truthful(env: Env, e: Entry) {
    ReadRaw(env, e.path) == Ok(e.content)
  }

  predicate AllTruthful(env: Env, r: Result<seq<Entry>, string>) {
    r.Ok? ==> forall e :: e in r.value ==> Truthful(env, e)
  }

  /** The path an answer to the request `q` may carry: `q` itself, or `q` normalised once more. */
  predicate FiledUnder(path: string, q: string) {
    path == q || path == EnginePath.EngineNormalize(q)
  }

  ghost predicate NamesOne(path: string, paths: seq<string>)
  {
    exists q :: q in paths && FiledUnder(path, q)
  }

  ghost predicate NamesRequests(r: Result<seq<Entry>, string>, paths: seq<string>)
  {
    r.Ok? ==> forall e :: e in r.value ==> NamesOne(e.path, paths)
  }

  /** What one backend makes of a path: the given mount, or else the file system. */
  function ReadFrom(env: Env, source: Option<Mounted>, path: string): Result<string, string>
  {
    if source.Some? then env.readMount(source.value, path) else env.readFs(path)
  }

  /** The entry is what the backend makes of one of the paths. */
  ghost predicate Answers(env: Env, source: Option<Mounted>, e: Entry, paths: seq<string>)
  {
    exists q :: q in paths && FiledUnder(e.path, q) && ReadFrom(env, source, q) == Ok(e.content)
  }

  /** What a bulk reader promises by itself: every entry is its own answer to one of the paths it is
      asked for, whatever the other backends hold. */
  ghost predicate KeepsWord(env: Env, source: Option<Mounted>, r: Result<seq<Entry>, string>, paths: seq<string>)
  {
    r.Ok? ==> forall e :: e in r.value ==> Answers(env, source, e, paths)
  }

  /** Every bulk reader keeps that promise. They may still return too little, too much, or in
      another order. */
  ghost predicate Faithful(env: Env)
  {
    && (forall m, paths: seq<string> :: m in env.router && env.bulkMount(m).Some? ==>
          KeepsWord(env, Some(m), env.bulkMount(m).value(paths, |paths|), paths))
    && (env.bulkFs.Some? ==> forall paths: seq<string> :: KeepsWord(env, None, env.bulkFs.value(paths), paths))
  }

  lemma {:induction false} NamesFromWord(env: Env, source: Option<Mounted>, r: Result<seq<Entry>, string>,
                                         paths: seq<string>)
    requires KeepsWord(env, source, r, paths)
    ensures NamesRequests(r, paths)
  {
    if r.Ok? {
      forall e | e in r.value
        ensures NamesOne(e.path, paths)
      {
        assert Answers(env, source, e, paths);
      }
    }
  }

  lemma {:induction false} NamesAmongMore(r: Result<seq<Entry>, string>, some: seq<string>, paths: seq<string>)
    requires NamesRequests(r, some) && forall p :: p in some ==> p in paths
    ensures NamesRequests(r, paths)
  {
    if r.Ok? {
      forall e | e in r.value
        ensures NamesOne(e.path, paths)
      {
        assert NamesOne(e.path, some);
      }
    }
  }

  /** How often a path occurs in a list of requests. */
  function Occurrences(paths: seq<string>, path: string): nat
  {
    if paths == [] then 0
    else Occurrences(paths[..|paths| - 1], path) + if paths[|paths| - 1] == path then 1 else 0
  }

  /** How many entries answer a path. */
  function AnswersFor(entries: seq<Entry>, path: string): nat
  {
    if entries == [] then 0
    else AnswersFor(entries[..|entries| - 1], path)
         + if EnginePath.EngineNormalize(entries[|entries| - 1].path) == path then 1 else 0
  }

  /** A complete answer: one entry for each request, in any order. */
  ghost predicate Complete(paths: seq<string>, r: Result<seq<Entry>, string>)
  {
    r.Ok? && forall p :: AnswersFor(r.value, p) == Occurrences(paths, p)
  }

  /** Every path can be read alone, from the given mount or else from the file system. */
  predicate AllReadable(env: Env, m: Option<Mounted>, paths: seq<string>)
  {
    forall p :: p in paths ==> ReadFrom(env, m, p).Ok?
  }

  /** Bulk readers answer completely whenever reading each path alone would succeed; they are only
      asked for paths that normalisation leaves alone. */
  ghost predicate Exact(env: Env)
  {
    && (forall m, paths: seq<string> ::
          m in env.router && env.bulkMount(m).Some? && AllStable(paths) && AllReadable(env, Some(m), paths) ==>
            Complete(paths, env.bulkMount(m).value(paths, |paths|)))
    && (env.bulkFs.Some? ==> forall paths: seq<string> :: AllStable(paths) && AllReadable(env, None, paths) ==>
          Complete(paths, env.bulkFs.value(paths)))
  }

  // ---------------------------------------------------------------- queues of answers

  type Queues = map<string, seq<Entry>>

  function Queue(index: Queues, path: string): seq<Entry>
  {
    if path in index then index[path] else []
  }

  /** Every queued entry is filed under its path and is what reading that path gives. */
  ghost predicate Good(env: Env, index: Queues)
  {
    forall p, e :: p in index && e in index[p] ==> e.path == p && ReadOne(env, p) == Ok(e.content)
  }

  function File(index: Queues, e: Entry): Queues
  {
    var path := EnginePath.EngineNormalize(e.path);
    index[path := Queue(index, path) + [Entry(path, e.content)]]
  }

  lemma {:induction false} FileKeeps(env: Env, index: Queues, e: Entry)
    requires Good(env, index) && Truthful(env, e)
    ensures Good(env, File(index, e))
    ensures forall p :: |Queue(File(index, e), p)| ==
                        |Queue(index, p)| + if EnginePath.EngineNormalize(e.path) == p then 1 else 0
  {
  }

  /** Answers to the request `q` end up in the queue of `p`: the path they carry is normalised. */
  predicate QueuedAs(p: string, q: string) {
    p == EnginePath.EngineNormalize(q) || p == EnginePath.EngineNormalize(EnginePath.EngineNormalize(q))
  }

  ghost predicate QueuedForOne(paths: seq<string>, p: string)
  {
    exists q :: q in paths && QueuedAs(p, q)
  }

  /** Whatever is queued was filed for one of the requests. */
  ghost predicate FiledFor(paths: seq<string>, index: Queues)
  {
    forall p :: Queue(index, p) != [] ==> QueuedForOne(paths, p)
  }

  /** There is something queued for each request. */
  ghost predicate AllQueued(paths: seq<string>, index: Queues)
  {
    forall p {:trigger Queue(index, p)} :: p in paths ==> Queue(index, p) != []
  }

  lemma {:induction false} FileKeepsFiled(paths: seq<string>, index: Queues, e: Entry)
    requires FiledFor(paths, index) && NamesOne(e.path, paths)
    ensures FiledFor(paths, File(index, e))
  {
    forall p | Queue(File(index, e), p) != []
      ensures QueuedForOne(paths, p)
    {
      if p == EnginePath.EngineNormalize(e.path) {
        var q :| q in paths && FiledUnder(e.path, q);
        assert QueuedAs(p, q);
      } else {
        assert Queue(index, p) != [];
      }
    }
  }

  /** The queues have grown by exactly these entries. */
  ghost predicate GrownBy(index: Queues, index0: Queues, entries: seq<Entry>)
  {
    forall p :: |Queue(index, p)| == |Queue(index0, p)| + AnswersFor(entries, p)
  }

  lemma {:induction false} GrownByOneMore(index: Queues, index0: Queues, entries: seq<Entry>, e: Entry)
    requires GrownBy(index, index0, entries)
    ensures GrownBy(File(index, e), index0, entries + [e])
  {
    assert (entries + [e])[..|entries|] == entries;
  }

  /** What of some entries is queued for one path, in their order. */
  function FiledOf(entries: seq<Entry>, path: string): seq<Entry>
  {
    if entries == [] then []
    else
      var e := entries[|entries| - 1];
      FiledOf(entries[..|entries| - 1], path) +
      if EnginePath.EngineNormalize(e.path) == path then [Entry(path, e.content)] else []
  }

  /** The queues have these entries at their ends. */
  ghost predicate EndsWithThese(index: Queues, index0: Queues, entries: seq<Entry>)
  {
    forall p :: Queue(index, p) == Queue(index0, p) + FiledOf(entries, p)
  }

  lemma {:induction false} QueueOfFiled(index: Queues, e: Entry, p: string)
    ensures Queue(File(index, e), p) ==
            Queue(index, p) + if EnginePath.EngineNormalize(e.path) == p then [Entry(p, e.content)] else []
  {
  }

  function FiledAll(index0: Queues, entries: seq<Entry>): Queues
  {
    if entries == [] then index0
    else File(FiledAll(index0, entries[..|entries| - 1]), entries[|entries| - 1])
  }

  /** Filing entries puts them at the end of the queues of their paths, in their order. */
  lemma {:induction false} FiledInOrder(index0: Queues, entries: seq<Entry>)
    ensures EndsWithThese(FiledAll(index0, entries), index0, entries)
  {
    if entries != [] {
      var init, e := entries[..|entries| - 1], entries[|entries| - 1];
      FiledInOrder(index0, init);
      forall p
        ensures Queue(FiledAll(index0, entries), p) == Queue(index0, p) + FiledOf(entries, p)
      {
        QueueOfFiled(FiledAll(index0, init), e, p);
        assert Queue(FiledAll(index0, init), p) == Queue(index0, p) + FiledOf(init, p);
      }
    }
  }

  /** What the queues are, once the first `k` entries have been appended. */
  ghost predicate Appended(env: Env, index0: Queues, entries: seq<Entry>, paths: seq<string>, k: nat, index: Queues)
    requires k <= |entries|
  {
    && (Good(env, index0) && AllTruthful(env, Ok(entries)) ==> Good(env, index))
    && (FiledFor(paths, index0) && NamesRequests(Ok(entries), paths) ==> FiledFor(paths, index))
    && GrownBy(index, index0, entries[..k])
  }

  lemma {:induction false} AppendOne(env: Env, index0: Queues, entries: seq<Entry>, paths: seq<string>, k: nat,
                                     index: Queues)
    requires k < |entries| && Appended(env, index0, entries, paths, k, index)
    ensures Appended(env, index0, entries, paths, k + 1, File(index, entries[k]))
  {
    assert entries[k] in entries && entries[..k + 1] == entries[..k] + [entries[k]];
    if Good(env, index0) && AllTruthful(env, Ok(entries)) {
      FileKeeps(env, index, entries[k]);
    }
    if FiledFor(paths, index0) && NamesRequests(Ok(entries), paths) {
      FileKeepsFiled(paths, index, entries[k]);
    }
    GrownByOneMore(index, index0, entries[..k], entries[k]);
  }

  method AppendReadManyEntries(ghost env: Env, index0: Queues, entries: seq<Entry>, ghost paths: seq<string>)
    returns (index: Queues)
    ensures Good(env, index0) && AllTruthful(env, Ok(entries)) ==> Good(env, index)
    ensures FiledFor(paths, index0) && NamesRequests(Ok(entries), paths) ==> FiledFor(paths, index)
    ensures GrownBy(index, index0, entries) && index == FiledAll(index0, entries)
  {
    index := index0;
    for k := 0 to |entries|
      invariant Appended(env, index0, entries, paths, k, index)
      invariant index == FiledAll(index0, entries[..k])
    {
      AppendOne(env, index0, entries, paths, k, index);
      assert entries[..k + 1][..k] == entries[..k];
      index := File(index, entries[k]);
    }
    assert entries[..|entries|] == entries;
  }

  // ---------------------------------------------------------------- grouping

  /** The requests, grouped by mount point, and those for the file system; requests read at once
      are already queued. */
  datatype Plan = Plan(order: seq<string>, groups: map<string, seq<string>>, mounts: map<string, Mounted>,
                       fsPaths: seq<string>, index: Queues)

  function Group(plan: Plan, point: string): seq<string>
  {
    if point in plan.groups then plan.groups[point] else []
  }

  /** The groups' keys, each once, in order of first request. */
  ghost predicate OrderLists(plan: Plan)
  {
    && (forall p :: p in plan.order <==> p in plan.groups)
    && (forall i, j :: 0 <= i < j < |plan.order| ==> plan.order[i] != plan.order[j])
  }

  predicate GroupRight(env: Env, point: string, m: Mounted, paths: seq<string>)
  {
    && m.point == point && m in env.router && paths != []
    && forall p :: p in paths ==> ActiveFor(env, p) == Ok(Some(m)) && Stable(p)
  }

  predicate GroupsRight(env: Env, plan: Plan)
  {
    plan.groups.Keys == plan.mounts.Keys &&
    forall k :: k in plan.groups ==> GroupRight(env, k, plan.mounts[k], plan.groups[k])
  }

  predicate FsRight(env: Env, fsPaths: seq<string>)
  {
    (forall p :: p in fsPaths ==> ActiveFor(env, p) == Ok(None) && Stable(p)) && (fsPaths != [] ==> env.bulkFs.Some?)
  }

  ghost predicate WellGrouped(env: Env, plan: Plan)
  {
    OrderLists(plan) && GroupsRight(env, plan) && FsRight(env, plan.fsPaths) && Good(env, plan.index)
  }

  /** How many of the paths belong to a mount. */
  function CountFor(env: Env, m: Mounted, paths: seq<string>): nat
  {
    if paths == [] then 0
    else CountFor(env, m, paths[..|paths| - 1]) + if ActiveFor(env, paths[|paths| - 1]) == Ok(Some(m)) then 1 else 0
  }

  /** Where the requests for a path have gone: to its mount's group, to the file system's list, or
      straight into its queue. */
  predicate PathAccounted(env: Env, plan: Plan, paths: seq<string>, p: string)
    requires ActiveFor(env, p).Ok?
  {
    var active, n := ActiveFor(env, p).value, Occurrences(paths, p);
    if active.Some? then Occurrences(Group(plan, active.value.point), p) == n
    else if env.bulkFs.Some? then Occurrences(plan.fsPaths, p) == n
    else |Queue(plan.index, p)| == n
  }

  ghost predicate PathsAccounted(env: Env, plan: Plan, paths: seq<string>)
  {
    forall p :: ActiveFor(env, p).Ok? ==> PathAccounted(env, plan, paths, p)
  }

  /** Each mount's group is as long as the number of its requests. */
  ghost predicate GroupsCounted(env: Env, plan: Plan, paths: seq<string>)
  {
    forall m :: m in env.router ==> |Group(plan, m.point)| == CountFor(env, m, paths)
  }

  ghost predicate Accounted(env: Env, plan: Plan, paths: seq<string>)
  {
    PathsAccounted(env, plan, paths) && GroupsCounted(env, plan, paths)
  }

  /** What holds of a plan for any requests whatever. */
  ghost predicate Tracked(env: Env, plan: Plan, paths: seq<string>)
  {
    && plan.groups.Keys == plan.mounts.Keys
    && (forall k :: k in plan.mounts ==> plan.mounts[k] in env.router)
    && (forall p :: p in plan.order ==> p in plan.groups)
    && (plan.fsPaths != [] ==> env.bulkFs.Some?)
    && (forall k, p :: k in plan.groups && p in plan.groups[k] ==> p in paths)
    && (forall p :: p in plan.fsPaths ==> p in paths)
    && FiledFor(paths, plan.index)
  }

  /** What holds of it besides when every request is stable. */
  ghost predicate WellPlanned(env: Env, plan: Plan, paths: seq<string>)
  {
    WellGrouped(env, plan) && Accounted(env, plan, paths)
  }

  lemma {:induction false} FiledForMore(paths: seq<string>, index: Queues, p: string)
    requires FiledFor(paths, index)
    ensures FiledFor(paths + [p], index)
  {
    forall q | Queue(index, q) != []
      ensures QueuedForOne(paths + [p], q)
    {
      var r :| r in paths && QueuedAs(q, r);
      assert r in paths + [p];
    }
  }

  function AddToGroup(plan: Plan, m: Mounted, p: string): Plan
  {
    plan.(order := if m.point in plan.groups then plan.order else plan.order + [m.point],
          groups := plan.groups[m.point := Group(plan, m.point) + [p]],
          mounts := plan.mounts[m.point := m])
  }

  lemma {:induction false} OccurrencesAppend(paths: seq<string>, x: string, p: string)
    ensures Occurrences(paths + [x], p) == Occurrences(paths, p) + if x == p then 1 else 0
  {
    assert (paths + [x])[..|paths|] == paths;
  }

  lemma {:induction false} CountAppend(env: Env, m: Mounted, paths: seq<string>, x: string)
    ensures CountFor(env, m, paths + [x]) == CountFor(env, m, paths) + if ActiveFor(env, x) == Ok(Some(m)) then 1 else 0
  {
    assert (paths + [x])[..|paths|] == paths;
  }

  lemma {:induction false} SamePointSameMount(router: seq<Mounted>, a: Mounted, b: Mounted)
    requires DistinctPoints(router) && a in router && b in router && a.point == b.point
    ensures a == b
  {
    var i :| 0 <= i < |router| && router[i] == a;
    var j :| 0 <= j < |router| && router[j] == b;
  }

  lemma {:induction false} MatchIsRegistered(router: seq<Mounted>, path: string)
    requires MatchIn(router, path).Some?
    ensures MatchIn(router, path).value in router
    decreases |router|
  {
    if !Owns(router[0].point, path) {
      MatchIsRegistered(router[1..], path);
    }
  }

  lemma {:induction false} AddToOrder(plan: Plan, m: Mounted, p: string)
    requires OrderLists(plan)
    ensures OrderLists(AddToGroup(plan, m, p))
  {
    var order := AddToGroup(plan, m, p).order;
    assert forall q :: q in order <==> q in plan.order || q == m.point;
  }

  lemma {:induction false} AddToGroupsRight(env: Env, plan: Plan, m: Mounted, p: string)
    requires DistinctPoints(env.router) && GroupsRight(env, plan)
    requires ActiveFor(env, p) == Ok(Some(m)) && Stable(p)
    ensures GroupsRight(env, AddToGroup(plan, m, p))
  {
    MatchIsRegistered(env.router, EnginePath.EngineNormalize(p));
    if m.point in plan.groups {
      assert GroupRight(env, m.point, plan.mounts[m.point], plan.groups[m.point]);
      SamePointSameMount(env.router, m, plan.mounts[m.point]);
    }
    assert GroupRight(env, m.point, m, Group(plan, m.point) + [p]);
  }

  lemma {:induction false} AddToGroupGrouped(env: Env, plan: Plan, m: Mounted, p: string)
    requires DistinctPoints(env.router) && WellGrouped(env, plan)
    requires ActiveFor(env, p) == Ok(Some(m)) && Stable(p)
    ensures WellGrouped(env, AddToGroup(plan, m, p))
  {
    AddToOrder(plan, m, p);
    AddToGroupsRight(env, plan, m, p);
  }

  lemma {:induction false} AddToGroupPath(env: Env, plan: Plan, m: Mounted, p: string, paths: seq<string>, q: string)
    requires ActiveFor(env, q).Ok? && PathAccounted(env, plan, paths, q) && ActiveFor(env, p) == Ok(Some(m))
    ensures PathAccounted(env, AddToGroup(plan, m, p), paths + [p], q)
  {
    OccurrencesAppend(paths, p, q);
    OccurrencesAppend(Group(plan, m.point), p, q);
  }

  lemma {:induction false} AddToGroupPaths(env: Env, plan: Plan, m: Mounted, p: string, paths: seq<string>)
    requires PathsAccounted(env, plan, paths) && ActiveFor(env, p) == Ok(Some(m))
    ensures PathsAccounted(env, AddToGroup(plan, m, p), paths + [p])
  {
    forall q | ActiveFor(env, q).Ok?
      ensures PathAccounted(env, AddToGroup(plan, m, p), paths + [p], q)
    {
      AddToGroupPath(env, plan, m, p, paths, q);
    }
  }

  lemma {:induction false} AddToGroupCounted(env: Env, plan: Plan, m: Mounted, p: string, paths: seq<string>)
    requires DistinctPoints(env.router) && GroupsCounted(env, plan, paths)
    requires m in env.router && ActiveFor(env, p) == Ok(Some(m))
    ensures GroupsCounted(env, AddToGroup(plan, m, p), paths + [p])
  {
    forall other | other in env.router
      ensures |Group(AddToGroup(plan, m, p), other.point)| == CountFor(env, other, paths + [p])
    {
      CountAppend(env, other, paths, p);
      if other.point == m.point {
        SamePointSameMount(env.router, m, other);
      }
    }
  }

  lemma {:induction false} AddToGroupAccounted(env: Env, plan: Plan, m: Mounted, p: string, paths: seq<string>)
    requires DistinctPoints(env.router) && Accounted(env, plan, paths) && ActiveFor(env, p) == Ok(Some(m))
    ensures Accounted(env, AddToGroup(plan, m, p), paths + [p])
  {
    MatchIsRegistered(env.router, EnginePath.EngineNormalize(p));
    AddToGroupPaths(env, plan, m, p, paths);
    AddToGroupCounted(env, plan, m, p, paths);
  }

  lemma {:induction false} AddElsewhereAccounted(env: Env, plan: Plan, p: string, paths: seq<string>, plan': Plan)
    requires Accounted(env, plan, paths) && ActiveFor(env, p) == Ok(None)
    requires plan'.groups == plan.groups
    requires if env.bulkFs.Some? then plan'.fsPaths == plan.fsPaths + [p]
             else forall q :: |Queue(plan'.index, q)| == |Queue(plan.index, q)| + if q == p then 1 else 0
    ensures Accounted(env, plan', paths + [p])
  {
    forall q | ActiveFor(env, q).Ok?
      ensures PathAccounted(env, plan', paths + [p], q)
    {
      assert PathAccounted(env, plan, paths, q);
      OccurrencesAppend(paths, p, q);
      OccurrencesAppend(plan.fsPaths, p, q);
    }
    forall m
      ensures CountFor(env, m, paths + [p]) == CountFor(env, m, paths)
    {
      CountAppend(env, m, paths, p);
    }
  }

  /** The requests, normalised. */
  function Normals(paths: seq<string>): (r: seq<string>)
    ensures |r| == |paths| && forall k :: 0 <= k < |paths| ==> r[k] == EnginePath.EngineNormalize(paths[k])
  {
    seq(|paths|, k requires 0 <= k < |paths| => EnginePath.EngineNormalize(paths[k]))
  }

  ghost predicate SomeUnreadable(env: Env, paths: seq<string>)
  {
    exists p :: p in paths && ReadOne(env, p).Err?
  }

  lemma {:induction false} AddToFsKeeps(env: Env, plan: Plan, p: string, paths: seq<string>)
    requires WellGrouped(env, plan) && Accounted(env, plan, paths)
    requires ActiveFor(env, p) == Ok(None) && Stable(p) && env.bulkFs.Some?
    ensures var plan' := plan.(fsPaths := plan.fsPaths + [p]);
            WellGrouped(env, plan') && Accounted(env, plan', paths + [p])
  {
    AddElsewhereAccounted(env, plan, p, paths, plan.(fsPaths := plan.fsPaths + [p]));
  }

  lemma {:induction false} AddAnswerKeeps(env: Env, plan: Plan, p: string, content: string, paths: seq<string>)
    requires WellGrouped(env, plan) && Accounted(env, plan, paths)
    requires ActiveFor(env, p) == Ok(None) && Stable(p) && env.bulkFs.None? && ReadOne(env, p) == Ok(content)
    ensures var plan' := plan.(index := File(plan.index, Entry(p, content)));
            WellGrouped(env, plan') && Accounted(env, plan', paths + [p])
  {
    FileKeeps(env, plan.index, Entry(p, content));
    AddElsewhereAccounted(env, plan, p, paths, plan.(index := File(plan.index, Entry(p, content))));
  }

  /** The body of the loop over the requests. */
  method PlanRequest(env: Env, plan: Plan, path: string, ghost paths: seq<string>) returns (r: Result<Plan, string>)
    requires Tracked(env, plan, paths)
    ensures r.Ok? ==> Tracked(env, r.value, paths + [path])
    ensures r.Ok? && DistinctPoints(env.router) && Stable(path) && WellPlanned(env, plan, paths) ==>
              WellPlanned(env, r.value, paths + [path])
    ensures r.Err? ==> ReadOne(env, path).Err?
  {
    ghost var sorted := DistinctPoints(env.router) && Stable(path) && WellPlanned(env, plan, paths);
    FiledForMore(paths, plan.index, path);
    var active := ActiveFor(env, path);
    if active.Err? {
      return Err(active.error);
    }
    if active.value.Some? {
      MatchIsRegistered(env.router, EnginePath.EngineNormalize(path));
      if sorted {
        AddToGroupGrouped(env, plan, active.value.value, path);
        AddToGroupAccounted(env, plan, active.value.value, path, paths);
      }
      return Ok(AddToGroup(plan, active.value.value, path));
    }
    if env.bulkFs.Some? {
      if sorted {
        AddToFsKeeps(env, plan, path, paths);
      }
      return Ok(plan.(fsPaths := plan.fsPaths + [path]));
    }
    var raw := env.readFs(path);
    if raw.Err? {
      return Err(raw.error);
    }
    if sorted {
      AddAnswerKeeps(env, plan, path, raw.value, paths);
    }
    assert path in paths + [path] && FiledUnder(path, path);
    FileKeepsFiled(paths + [path], plan.index, Entry(path, raw.value));
    return Ok(plan.(index := File(plan.index, Entry(path, raw.value))));
  }

  method PlanReads(env: Env, paths: seq<string>) returns (r: Result<Plan, string>)
    ensures r.Ok? ==> Tracked(env, r.value, paths)
    ensures r.Ok? && DistinctPoints(env.router) && AllStable(paths) ==> WellPlanned(env, r.value, paths)
    ensures r.Err? ==> SomeUnreadable(env, paths)
  {
    var plan := Plan([], map[], map[], [], map[]);
    for k := 0 to |paths|
      invariant Tracked(env, plan, paths[..k])
      invariant DistinctPoints(env.router) && AllStable(paths) ==> WellPlanned(env, plan, paths[..k])
    {
      assert paths[k] in paths && paths[..k + 1] == paths[..k] + [paths[k]];
      r := PlanRequest(env, plan, paths[k], paths[..k]);
      if r.Err? {
        return;
      }
      plan := r.value;
    }
    assert paths[..|paths|] == paths;
    return Ok(plan);
  }

  // ---------------------------------------------------------------- reading the groups

  lemma {:induction false} ReadEachTruthful(env: Env, m: Mounted, paths: seq<string>, done: seq<Entry>)
    requires forall p :: p in paths ==> ActiveFor(env, p) == Ok(Some(m)) && Stable(p)
    requires forall e :: e in done ==> Truthful(env, e)
    ensures AllTruthful(env, ReadEach(env, m, paths, done))
    decreases |paths|
  {
    if paths != [] && env.readMount(m, paths[0]).Ok? {
      var e := Entry(paths[0], env.readMount(m, paths[0]).value);
      assert paths[0] in paths;
      assert Truthful(env, e);
      ReadEachTruthful(env, m, paths[1..], done + [e]);
    }
  }

  lemma {:induction false} ReadEachNames(env: Env, m: Mounted, all: seq<string>, paths: seq<string>, done: seq<Entry>)
    requires (forall p :: p in paths ==> p in all) && forall e :: e in done ==> NamesOne(e.path, all)
    ensures NamesRequests(ReadEach(env, m, paths, done), all)
    decreases |paths|
  {
    if paths != [] && env.readMount(m, paths[0]).Ok? {
      assert paths[0] in paths && FiledUnder(paths[0], paths[0]);
      ReadEachNames(env, m, all, paths[1..], done + [Entry(paths[0], env.readMount(m, paths[0]).value)]);
    }
  }

  lemma {:induction false} ReadEachComplete(env: Env, m: Mounted, all: seq<string>, k: nat, done: seq<Entry>)
    requires k <= |all| && (forall p :: p in all ==> Stable(p)) && AllReadable(env, Some(m), all)
    requires forall p :: AnswersFor(done, p) == Occurrences(all[..k], p)
    ensures Complete(all, ReadEach(env, m, all[k..], done))
    decreases |all| - k
  {
    if k < |all| {
      var path := all[k];
      assert path in all;
      var e := Entry(path, env.readMount(m, path).value);
      assert all[k..][1..] == all[k + 1..];
      assert all[..k + 1][..k] == all[..k];
      assert (done + [e])[..|done|] == done;
      ReadEachComplete(env, m, all, k + 1, done + [e]);
    } else {
      assert all[..k] == all;
    }
  }

  /** The mounts take their groups: the profile admits them and there is a way to read them. */
  predicate Serves(env: Env, m: Mounted, n: nat)
  {
    Admits(env.profile(m), n) && (env.bulkMount(m).Some? || AllowsFallback(env.profile(m)))
  }

  /** Every mount that is asked for something serves that many paths. */
  predicate Admissible(env: Env, paths: seq<string>)
  {
    forall m :: m in env.router && CountFor(env, m, paths) > 0 ==> Serves(env, m, CountFor(env, m, paths))
  }

  /** A backend's own answers to the paths that are routed to it are those that routing gives. */
  lemma {:induction false} WordIsTruth(env: Env, source: Option<Mounted>, r: Result<seq<Entry>, string>,
                                       paths: seq<string>)
    requires KeepsWord(env, source, r, paths)
    requires forall p :: p in paths ==> ActiveFor(env, p) == Ok(source) && Stable(p)
    ensures AllTruthful(env, r)
  {
    if r.Ok? {
      forall e | e in r.value
        ensures Truthful(env, e)
      {
        assert Answers(env, source, e, paths);
        var q :| q in paths && FiledUnder(e.path, q) && ReadFrom(env, source, q) == Ok(e.content);
      }
    }
  }

  lemma {:induction false} GroupTruthful(env: Env, m: Mounted, paths: seq<string>)
    requires m in env.router && forall p :: p in paths ==> ActiveFor(env, p) == Ok(Some(m)) && Stable(p)
    ensures Faithful(env) ==> AllTruthful(env, MountReadMany(env, m, paths))
  {
    ReadEachTruthful(env, m, paths, []);
    var bulk := env.bulkMount(m);
    if Faithful(env) && bulk.Some? {
      WordIsTruth(env, Some(m), bulk.value(paths, |paths|), paths);
    }
  }

  lemma {:induction false} FsTruthful(env: Env, paths: seq<string>)
    requires env.bulkFs.Some? && forall p :: p in paths ==> ActiveFor(env, p) == Ok(None) && Stable(p)
    ensures Faithful(env) ==> AllTruthful(env, env.bulkFs.value(paths))
  {
    if Faithful(env) {
      WordIsTruth(env, None, env.bulkFs.value(paths), paths);
    }
  }

  lemma {:induction false} GroupComplete(env: Env, m: Mounted, paths: seq<string>)
    requires m in env.router && forall p :: p in paths ==> Stable(p)
    ensures Exact(env) && Serves(env, m, |paths|) && AllReadable(env, Some(m), paths) ==>
              Complete(paths, MountReadMany(env, m, paths))
  {
    if AllReadable(env, Some(m), paths) {
      assert paths[0..] == paths;
      ReadEachComplete(env, m, paths, 0, []);
    }
  }

  lemma {:induction false} GroupNames(env: Env, m: Mounted, group: seq<string>, paths: seq<string>)
    requires m in env.router && forall p :: p in group ==> p in paths
    ensures Faithful(env) ==> NamesRequests(MountReadMany(env, m, group), paths)
  {
    ReadEachNames(env, m, group, group, []);
    var bulk := env.bulkMount(m);
    if Faithful(env) {
      if bulk.Some? {
        NamesFromWord(env, Some(m), bulk.value(group, |group|), group);
      }
      NamesAmongMore(MountReadMany(env, m, group), group, paths);
    }
  }

  lemma {:induction false} FsNames(env: Env, fsPaths: seq<string>, paths: seq<string>)
    requires env.bulkFs.Some? && forall p :: p in fsPaths ==> p in paths
    ensures Faithful(env) ==> NamesRequests(env.bulkFs.value(fsPaths), paths)
  {
    if Faithful(env) {
      NamesFromWord(env, None, env.bulkFs.value(fsPaths), fsPaths);
      NamesAmongMore(env.bulkFs.value(fsPaths), fsPaths, paths);
    }
  }

  /** Everything is as it should be for a complete answer. */
  ghost predicate AllWell(env: Env, paths: seq<string>)
  {
    Exact(env) && Admissible(env, paths) && forall p :: p in paths ==> ReadOne(env, p).Ok?
  }

  lemma {:induction false} OccursIfMember(paths: seq<string>, p: string)
    ensures p in paths <==> Occurrences(paths, p) > 0
    decreases |paths|
  {
    if paths != [] {
      OccursIfMember(paths[..|paths| - 1], p);
      assert paths == paths[..|paths| - 1] + [paths[|paths| - 1]];
    }
  }

  lemma {:induction false} GroupReadable(env: Env, plan: Plan, paths: seq<string>, point: string)
    requires WellGrouped(env, plan) && Accounted(env, plan, paths) && AllWell(env, paths) && point in plan.groups
    ensures AllReadable(env, Some(plan.mounts[point]), plan.groups[point])
    ensures Serves(env, plan.mounts[point], |plan.groups[point]|)
  {
    assert GroupRight(env, point, plan.mounts[point], plan.groups[point]);
    forall p | p in plan.groups[point]
      ensures ReadFrom(env, Some(plan.mounts[point]), p).Ok?
    {
      OccursIfMember(plan.groups[point], p);
      OccursIfMember(paths, p);
      assert ReadOne(env, p).Ok?;
    }
  }

  /** The file system's paths in one call, if it can do that. */
  method ReadFileSystem(env: Env, plan: Plan, ghost paths: seq<string>) returns (r: Result<Queues, string>)
    requires Tracked(env, plan, paths)
    ensures r.Ok? && Faithful(env) ==> FiledFor(paths, r.value)
    ensures r.Ok? && Faithful(env) && WellPlanned(env, plan, paths) ==> Good(env, r.value)
    ensures WellPlanned(env, plan, paths) && AllWell(env, paths) ==>
              r.Ok? && forall p :: |Queue(r.value, p)| >= |Queue(plan.index, p)| + Occurrences(plan.fsPaths, p)
  {
    if |plan.fsPaths| == 0 {
      return Ok(plan.index);
    }
    var partial := env.bulkFs.value(plan.fsPaths);
    if WellPlanned(env, plan, paths) && AllWell(env, paths) {
      FsReadable(env, plan, paths);
    }
    if partial.Err? {
      return Err(partial.error);
    }
    if WellPlanned(env, plan, paths) {
      FsTruthful(env, plan.fsPaths);
    }
    FsNames(env, plan.fsPaths, paths);
    var index := AppendReadManyEntries(env, plan.index, partial.value, paths);
    return Ok(index);
  }

  lemma {:induction false} FsReadable(env: Env, plan: Plan, paths: seq<string>)
    requires WellGrouped(env, plan) && Accounted(env, plan, paths) && AllWell(env, paths) && plan.fsPaths != []
    ensures AllReadable(env, None, plan.fsPaths)
  {
    forall p | p in plan.fsPaths
      ensures ReadFrom(env, None, p).Ok?
    {
      OccursIfMember(plan.fsPaths, p);
      OccursIfMember(paths, p);
      assert ReadOne(env, p).Ok?;
    }
  }

  /** Every group has been answered completely, up to group `n`. */
  ghost predicate Answered(plan: Plan, n: nat, before: Queues, index: Queues)
    requires n <= |plan.order|
  {
    && (forall p :: |Queue(index, p)| >= |Queue(before, p)|)
    && (forall k, p :: 0 <= k < n ==> |Queue(index, p)| >= Occurrences(Group(plan, plan.order[k]), p))
  }

  lemma {:induction false} AnsweredOneMore(plan: Plan, n: nat, before: Queues, index: Queues, index': Queues)
    requires n < |plan.order| && Answered(plan, n, before, index)
    requires forall p :: |Queue(index', p)| >= |Queue(index, p)| + Occurrences(Group(plan, plan.order[n]), p)
    ensures Answered(plan, n + 1, before, index')
  {
    forall k, p | 0 <= k < n + 1
      ensures |Queue(index', p)| >= Occurrences(Group(plan, plan.order[k]), p)
    {
      assert |Queue(index', p)| >= |Queue(index, p)| + Occurrences(Group(plan, plan.order[n]), p);
    }
    forall p
      ensures |Queue(index', p)| >= |Queue(before, p)|
    {
      assert |Queue(index', p)| >= |Queue(index, p)| + Occurrences(Group(plan, plan.order[n]), p);
    }
  }

  method ReadGroups(env: Env, plan: Plan, before: Queues, ghost paths: seq<string>) returns (r: Result<Queues, string>)
    requires Tracked(env, plan, paths)
    ensures r.Ok? && Faithful(env) && FiledFor(paths, before) ==> FiledFor(paths, r.value)
    ensures r.Ok? && Faithful(env) && WellPlanned(env, plan, paths) && Good(env, before) ==> Good(env, r.value)
    ensures WellPlanned(env, plan, paths) && AllWell(env, paths) ==>
              r.Ok? && Answered(plan, |plan.order|, before, r.value)
  {
    var index := before;
    for k := 0 to |plan.order|
      invariant Faithful(env) && FiledFor(paths, before) ==> FiledFor(paths, index)
      invariant Faithful(env) && WellPlanned(env, plan, paths) && Good(env, before) ==> Good(env, index)
      invariant WellPlanned(env, plan, paths) && AllWell(env, paths) ==> Answered(plan, k, before, index)
    {
      var point := plan.order[k];
      assert point in plan.order;
      r := ReadGroup(env, plan, point, index, paths);
      if r.Err? {
        return;
      }
      if WellPlanned(env, plan, paths) && AllWell(env, paths) {
        AnsweredOneMore(plan, k, before, index, r.value);
      }
      index := r.value;
    }
    return Ok(index);
  }

  method ReadGroup(env: Env, plan: Plan, point: string, before: Queues, ghost paths: seq<string>)
    returns (r: Result<Queues, string>)
    requires Tracked(env, plan, paths) && point in plan.groups
    ensures r.Ok? && Faithful(env) && FiledFor(paths, before) ==> FiledFor(paths, r.value)
    ensures r.Ok? && Faithful(env) && WellPlanned(env, plan, paths) && Good(env, before) ==> Good(env, r.value)
    ensures WellPlanned(env, plan, paths) && AllWell(env, paths) ==>
              r.Ok? && forall p :: |Queue(r.value, p)| >= |Queue(before, p)| + Occurrences(plan.groups[point], p)
  {
    var mount, grouped := plan.mounts[point], plan.groups[point];
    ghost var sorted := WellPlanned(env, plan, paths);
    if sorted && AllWell(env, paths) {
      GroupReadable(env, plan, paths, point);
    }
    if sorted {
      assert GroupRight(env, point, mount, grouped);
      GroupTruthful(env, mount, grouped);
      GroupComplete(env, mount, grouped);
    }
    GroupNames(env, mount, grouped, paths);
    var entries := ReadManyFromMount(env, mount, grouped);
    if entries.Err? {
      return Err(entries.error);
    }
    var index := AppendReadManyEntries(env, before, entries.value, paths);
    return Ok(index);
  }

  // ---------------------------------------------------------------- dealing out

  lemma {:induction false} OccurrencesHead(paths: seq<string>, p: string)
    requires paths != []
    ensures Occurrences(paths, p) == Occurrences(paths[1..], p) + if paths[0] == p then 1 else 0
    decreases |paths|
  {
    if |paths| > 1 {
      var init := paths[..|paths| - 1];
      OccurrencesHead(init, p);
      assert init[1..] == paths[1..][..|paths| - 2];
    } else {
      assert paths[1..] == [] && paths[..0] == [];
    }
  }

  /** The answer to each request, in request order. */
  ghost predicate Dealt(env: Env, paths: seq<string>, results: seq<Entry>)
  {
    |results| == |paths| &&
    forall k :: 0 <= k < |paths| ==> results[k].path == paths[k] && ReadOne(env, paths[k]) == Ok(results[k].content)
  }

  /** There is an answer in the queues for every request. */
  ghost predicate Enough(index: Queues, paths: seq<string>)
  {
    forall p :: |Queue(index, p)| >= Occurrences(paths, p)
  }

  lemma {:induction false} TakeFirst(env: Env, index: Queues, paths: seq<string>)
    requires paths != [] && Queue(index, paths[0]) != []
    ensures var e, index' := index[paths[0]][0], index[paths[0] := index[paths[0]][1..]];
            && (Good(env, index) ==> e.path == paths[0] && ReadOne(env, paths[0]) == Ok(e.content) && Good(env, index'))
            && (Enough(index, paths) ==> Enough(index', paths[1..]))
  {
    if Good(env, index) {
      TakeFirstGood(env, index, paths[0]);
    }
    if Enough(index, paths) {
      TakeFirstEnough(index, paths);
    }
  }

  lemma {:induction false} TakeFirstGood(env: Env, index: Queues, path: string)
    requires Good(env, index) && Queue(index, path) != []
    ensures var e := index[path][0];
            e.path == path && ReadOne(env, path) == Ok(e.content) && Good(env, index[path := index[path][1..]])
  {
    assert index[path][0] in index[path];
    assert forall e :: e in index[path][1..] ==> e in index[path];
  }

  lemma {:induction false} TakeFirstEnough(index: Queues, paths: seq<string>)
    requires paths != [] && Queue(index, paths[0]) != [] && Enough(index, paths)
    ensures Enough(index[paths[0] := index[paths[0]][1..]], paths[1..])
  {
    var index' := index[paths[0] := index[paths[0]][1..]];
    forall p
      ensures |Queue(index', p)| >= Occurrences(paths[1..], p)
    {
      OccurrencesHead(paths, p);
      assert |Queue(index, p)| >= Occurrences(paths, p);
    }
  }

  /** Queues only lose entries while they are dealt out. */
  ghost predicate Smaller(index: Queues, index0: Queues)
  {
    forall p :: |Queue(index, p)| <= |Queue(index0, p)|
  }

  /** The first `k` requests have been answered from the queues. */
  ghost predicate DealtSoFar(env: Env, paths: seq<string>, k: nat, index0: Queues, index: Queues, results: seq<Entry>)
    requires k <= |paths|
  {
    && Smaller(index, index0) && AllQueued(paths[..k], index0)
    && (Good(env, index0) ==> Good(env, index) && Dealt(env, paths[..k], results))
    && (Enough(index0, paths) ==> Enough(index, paths[k..]))
  }

  lemma {:induction false} DealOne(env: Env, paths: seq<string>, k: nat, index0: Queues, index: Queues,
                                   results: seq<Entry>)
    requires k < |paths| && DealtSoFar(env, paths, k, index0, index, results) && Queue(index, paths[k]) != []
    ensures var queued := index[paths[k]];
            DealtSoFar(env, paths, k + 1, index0, index[paths[k] := queued[1..]], results + [queued[0]])
  {
    assert paths[k..][1..] == paths[k + 1..] && paths[k..][0] == paths[k];
    assert paths[..k + 1] == paths[..k] + [paths[k]];
    TakeFirst(env, index, paths[k..]);
  }

  method DealOut(env: Env, paths: seq<string>, index0: Queues) returns (r: Result<seq<Entry>, string>)
    ensures r.Ok? && Good(env, index0) ==> Dealt(env, paths, r.value)
    ensures r.Ok? ==> AllQueued(paths, index0)
    ensures Enough(index0, paths) ==> r.Ok?
  {
    var index := index0;
    var results: seq<Entry> := [];
    assert paths[0..] == paths;
    for k := 0 to |paths|
      invariant DealtSoFar(env, paths, k, index0, index, results)
    {
      var path := paths[k];
      var queued := Queue(index, path);
      if |queued| == 0 {
        OccursIfMember(paths[k..], path);
        assert paths[k..][0] == path;
        return Err(path);
      }
      DealOne(env, paths, k, index0, index, results);
      results := results + [queued[0]];
      index := index[path := queued[1..]];
    }
    assert paths[..|paths|] == paths;
    return Ok(results);
  }

  /** A path that a second normalisation would change is never answered: its own answers are filed
      under shorter paths, and only a longer such path could be filed in its place. */
  lemma {:induction false} UnstableUnanswered(paths: seq<string>, index: Queues, p: string, longest: nat)
    requires FiledFor(paths, index) && AllQueued(paths, index) && forall q :: q in paths ==> EnginePath.Rooted(q)
    requires p in paths && forall q :: q in paths ==> |q| <= longest
    ensures Stable(p)
    decreases longest - |p|
  {
    assert Queue(index, p) != [];
    var q :| q in paths && QueuedAs(p, q);
    QueuedNoLonger(p, q);
    if |p| < |q| {
      UnstableUnanswered(paths, index, q, longest);
    }
  }

  lemma {:induction false} QueuedNoLonger(p: string, q: string)
    requires QueuedAs(p, q) && EnginePath.Rooted(q)
    ensures |p| < |q| || (p == q && Stable(q))
  {
    var once := EnginePath.EngineNormalize(q);
    EnginePath.NormalizeShrinks(q);
    EnginePath.RootedNormal(q);
    EnginePath.NormalizeShrinks(once);
  }

  lemma {:induction false} LongestOf(paths: seq<string>) returns (longest: nat)
    ensures forall q :: q in paths ==> |q| <= longest
    decreases |paths|
  {
    longest := 0;
    if paths != [] {
      longest := LongestOf(paths[1..]);
      longest := if |paths[0]| > longest then |paths[0]| else longest;
    }
  }

  lemma {:induction false} AnsweredAreStable(paths: seq<string>, index: Queues)
    requires FiledFor(paths, index) && AllQueued(paths, index) && forall q :: q in paths ==> EnginePath.Rooted(q)
    ensures AllStable(paths)
  {
    var longest := LongestOf(paths);
    forall p | p in paths
      ensures Stable(p)
    {
      UnstableUnanswered(paths, index, p, longest);
    }
  }

  lemma {:induction false} AnsweredIsEnough(env: Env, plan: Plan, paths: seq<string>, afterFs: Queues, index: Queues)
    requires WellGrouped(env, plan) && Accounted(env, plan, paths) && AllWell(env, paths)
    requires forall p :: |Queue(afterFs, p)| >= |Queue(plan.index, p)| + Occurrences(plan.fsPaths, p)
    requires Answered(plan, |plan.order|, afterFs, index)
    ensures Enough(index, paths)
  {
    forall p
      ensures |Queue(index, p)| >= Occurrences(paths, p)
    {
      OccursIfMember(paths, p);
      if p in paths {
        assert ReadOne(env, p).Ok?;
        var active := ActiveFor(env, p).value;
        if active.Some? {
          var point := active.value.point;
          assert point in plan.groups;
          var k :| 0 <= k < |plan.order| && plan.order[k] == point;
        }
      }
    }
  }

  /** The answers of the mounts and of the file system, queued by path. */
  method GatherAnswers(env: Env, paths: seq<string>) returns (r: Result<Queues, string>)
    ensures r.Ok? && Faithful(env) ==> FiledFor(paths, r.value)
    ensures r.Ok? && Faithful(env) && DistinctPoints(env.router) && AllStable(paths) ==> Good(env, r.value)
    ensures DistinctPoints(env.router) && AllStable(paths) && AllWell(env, paths) ==> r.Ok? && Enough(r.value, paths)
  {
    var plan := PlanReads(env, paths);
    if plan.Err? {
      return Err(plan.error);
    }
    var afterFs := ReadFileSystem(env, plan.value, paths);
    if afterFs.Err? {
      return Err(afterFs.error);
    }
    r := ReadGroups(env, plan.value, afterFs.value, paths);
    if DistinctPoints(env.router) && AllStable(paths) && AllWell(env, paths) {
      AnsweredIsEnough(env, plan.value, paths, afterFs.value, r.value);
    }
  }

  lemma {:induction false} DealtAreReadable(env: Env, paths: seq<string>, results: seq<Entry>)
    requires Dealt(env, paths, results)
    ensures forall p :: p in paths ==> ReadOne(env, p).Ok?
  {
    forall p | p in paths
      ensures ReadOne(env, p).Ok?
    {
      var k :| 0 <= k < |paths| && paths[k] == p;
    }
  }

  /** Each request can be read alone, and is left alone by normalisation. */
  predicate EachReadable(env: Env, paths: seq<string>)
  {
    AllStable(paths) && forall p :: p in paths ==> ReadOne(env, p).Ok?
  }

  method ReadNormal(env: Env, paths: seq<string>) returns (r: Result<seq<Entry>, string>)
    requires DistinctPoints(env.router) && forall p :: p in paths ==> EnginePath.Rooted(p)
    ensures r.Ok? && Faithful(env) ==> AllStable(paths) && Dealt(env, paths, r.value)
    ensures Exact(env) && Admissible(env, paths) && EachReadable(env, paths) ==> r.Ok?
  {
    var index := GatherAnswers(env, paths);
    if index.Err? {
      return Err(index.error);
    }
    r := DealOut(env, paths, index.value);
    if r.Ok? && Faithful(env) {
      AnsweredAreStable(paths, index.value);
    }
  }

  /** One entry for each request, in request order, under its normalised path and with what reading
      that request alone gives. */
  ghost predicate AsReadAlone(env: Env, requests: seq<string>, results: seq<Entry>)
  {
    |results| == |requests| &&
    forall k :: 0 <= k < |requests| ==>
      results[k].path == EnginePath.EngineNormalize(requests[k]) && ReadRaw(env, requests[k]) == Ok(results[k].content)
  }

  /** A second normalisation of each request changes nothing. */
  predicate StableRequests(requests: seq<string>) {
    forall q :: q in requests ==> Stable(EnginePath.EngineNormalize(q))
  }

  /** Each request can be read alone. */
  predicate EachReadAlone(env: Env, requests: seq<string>)
  {
    forall q :: q in requests ==> ReadRaw(env, q).Ok?
  }

  lemma {:induction false} RequestsAsNormals(env: Env, requests: seq<string>)
    ensures EachReadable(env, Normals(requests)) <==> StableRequests(requests) && EachReadAlone(env, requests)
    ensures AllStable(Normals(requests)) ==> StableRequests(requests)
  {
    var paths := Normals(requests);
    forall k | 0 <= k < |requests|
      ensures paths[k] in paths && requests[k] in requests && paths[k] == EnginePath.EngineNormalize(requests[k])
    {
    }
    if AllStable(paths) {
      forall q | q in requests
        ensures EnginePath.EngineNormalize(q) in paths
      {
        var k :| 0 <= k < |requests| && requests[k] == q;
        assert paths[k] in paths;
      }
    }
    if StableRequests(requests) && EachReadAlone(env, requests) {
      forall p | p in paths
        ensures Stable(p) && ReadOne(env, p).Ok?
      {
        var k :| 0 <= k < |paths| && paths[k] == p;
        assert ReadRaw(env, requests[k]).Ok?;
      }
    }
  }

  /** With bulk readers that keep their own word, a batched read that succeeds answers every
      request in request order with what reading it alone gives; it succeeds only if a second
      normalisation leaves every request alone. If the bulk readers are complete and the mounts
      admit their groups, it succeeds exactly when besides each request can be read alone. */
  method ReadMany(env: Env, requests: seq<string>) returns (r: Result<seq<Entry>, string>)
    requires DistinctPoints(env.router)
    ensures r.Ok? && Faithful(env) ==> StableRequests(requests) && AsReadAlone(env, requests, r.value)
    ensures Faithful(env) && Exact(env) && Admissible(env, Normals(requests)) ==>
              (r.Ok? <==> StableRequests(requests) && EachReadAlone(env, requests))
  {
    if |requests| == 0 {
      return Ok([]);
    }
    ghost var paths := Normals(requests);
    r := ReadNormal(env, Normals(requests));
    RequestsAsNormals(env, requests);
    if r.Ok? && Faithful(env) {
      DealtAreReadable(env, paths, r.value);
      DealtIsAsReadAlone(env, requests, r.value);
    }
  }

  lemma {:induction false} DealtIsAsReadAlone(env: Env, requests: seq<string>, results: seq<Entry>)
    requires Dealt(env, Normals(requests), results)
    ensures AsReadAlone(env, requests, results)
  {
  }
}
