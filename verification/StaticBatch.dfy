/** The static mount behind a batched read: its bulk reader keeps the promises that batched reads
    rely on. It files every answer under the request normalised once more. */
module StaticBatch {
  import opened Prelude
  import opened StaticMount
  import opened MountListing
  import opened MountRouter
  import EnginePath
  import BatchRead

  function Message(error: MountError): string
  {
    if error.NotFound? then error.text + ": No such file or directory" else ""
  }

  /** Reading one path of the mount. */
  function ReadText(index: Index, path: string): Result<string, string>
  {
    var content := ReadContent(index, path);
    if content.Ok? then Ok(content.value) else Err(Message(content.error))
  }

  function AsEntries(contents: seq<Content>): (r: seq<BatchRead.Entry>)
    ensures |r| == |contents|
  {
    seq(|contents|, k requires 0 <= k < |contents| => BatchRead.Entry(contents[k].path, contents[k].text))
  }

  function ReadAll(index: Index, paths: seq<string>): Result<seq<BatchRead.Entry>, string>
  {
    var contents := ReadOnto(index, paths, []);
    if contents.Ok? then Ok(AsEntries(contents.value)) else Err(Message(contents.error))
  }

  /** The mount's answers to batched and to single reads are those of one index. */
  ghost predicate IsStatic(env: BatchRead.Env, m: Mounted, index: Index)
  {
    && env.bulkMount(m).Some?
    && (forall paths: seq<string> :: env.bulkMount(m).value(paths, |paths|) == ReadAll(index, paths))
    && (forall path :: env.readMount(m, path) == ReadText(index, path))
  }

  lemma {:induction false} AnswerOf(index: Index, paths: seq<string>, k: nat)
    requires k < |paths| && ReadAll(index, paths).Ok?
    ensures var r := ReadAll(index, paths).value;
            |r| == |paths| && r[k].path == EnginePath.EngineNormalize(paths[k]) &&
            ReadText(index, paths[k]) == Ok(r[k].content)
  {
    ReadOntoEach(index, paths);
  }

  lemma {:induction false} StaticKeepsWord(env: BatchRead.Env, m: Mounted, index: Index, paths: seq<string>)
    requires IsStatic(env, m, index)
    ensures BatchRead.KeepsWord(env, Some(m), env.bulkMount(m).value(paths, |paths|), paths)
  {
    var r := ReadAll(index, paths);
    if r.Ok? {
      ReadOntoEach(index, paths);
      forall e | e in r.value
        ensures BatchRead.Answers(env, Some(m), e, paths)
      {
        var k :| 0 <= k < |r.value| && r.value[k] == e;
        AnswerOf(index, paths, k);
        assert paths[k] in paths && BatchRead.FiledUnder(e.path, paths[k]);
      }
    }
  }

  /** Answers in request order, each filed under its own request. */
  lemma {:induction false} CountsAgree(paths: seq<string>, entries: seq<BatchRead.Entry>, p: string)
    requires |entries| == |paths|
    requires forall k :: 0 <= k < |paths| ==> EnginePath.EngineNormalize(entries[k].path) == paths[k]
    ensures BatchRead.AnswersFor(entries, p) == BatchRead.Occurrences(paths, p)
    decreases |paths|
  {
    if paths != [] {
      CountsAgree(paths[..|paths| - 1], entries[..|paths| - 1], p);
    }
  }

  lemma {:induction false} StaticIsComplete(env: BatchRead.Env, m: Mounted, index: Index, paths: seq<string>)
    requires IsStatic(env, m, index) && BatchRead.AllStable(paths) && BatchRead.AllReadable(env, Some(m), paths)
    ensures BatchRead.Complete(paths, env.bulkMount(m).value(paths, |paths|))
  {
    forall k | 0 <= k < |paths|
      ensures ReadContent(index, paths[k]).Ok? && BatchRead.Stable(paths[k])
    {
      assert paths[k] in paths;
      assert BatchRead.ReadFrom(env, Some(m), paths[k]).Ok?;
    }
    ReadOntoEach(index, paths);
    var r := ReadAll(index, paths);
    forall k | 0 <= k < |paths|
      ensures EnginePath.EngineNormalize(r.value[k].path) == paths[k]
    {
      AnswerOf(index, paths, k);
    }
    forall p
      ensures BatchRead.AnswersFor(r.value, p) == BatchRead.Occurrences(paths, p)
    {
      CountsAgree(paths, r.value, p);
    }
  }

  ghost predicate SomeStatic(env: BatchRead.Env, m: Mounted)
  {
    exists index :: IsStatic(env, m, index)
  }

  /** Mounts that read in bulk are static mounts; the others, and the file system, read path by path. */
  ghost predicate StaticMounts(env: BatchRead.Env)
  {
    env.bulkFs.None? && forall m :: m in env.router && env.bulkMount(m).Some? ==> SomeStatic(env, m)
  }

  lemma {:induction false} StaticMountSuffices(env: BatchRead.Env, m: Mounted, paths: seq<string>)
    requires SomeStatic(env, m)
    ensures env.bulkMount(m).Some?
    ensures BatchRead.KeepsWord(env, Some(m), env.bulkMount(m).value(paths, |paths|), paths)
    ensures BatchRead.AllStable(paths) && BatchRead.AllReadable(env, Some(m), paths) ==>
              BatchRead.Complete(paths, env.bulkMount(m).value(paths, |paths|))
  {
    var index :| IsStatic(env, m, index);
    StaticKeepsWord(env, m, index, paths);
    if BatchRead.AllStable(paths) && BatchRead.AllReadable(env, Some(m), paths) {
      StaticIsComplete(env, m, index, paths);
    }
  }

  /** Over such mounts nothing is left to assume of a batched read's backends. */
  lemma {:induction false} StaticMountsSuffice(env: BatchRead.Env)
    requires StaticMounts(env)
    ensures BatchRead.Faithful(env) && BatchRead.Exact(env)
  {
    forall m, paths: seq<string> | m in env.router && env.bulkMount(m).Some?
      ensures BatchRead.KeepsWord(env, Some(m), env.bulkMount(m).value(paths, |paths|), paths)
    {
      StaticMountSuffices(env, m, paths);
    }
    forall m, paths: seq<string> | m in env.router && env.bulkMount(m).Some? && BatchRead.AllStable(paths) &&
                                     BatchRead.AllReadable(env, Some(m), paths)
      ensures BatchRead.Complete(paths, env.bulkMount(m).value(paths, |paths|))
    {
      StaticMountSuffices(env, m, paths);
    }
  }
}
