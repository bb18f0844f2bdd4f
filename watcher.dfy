/** The file watcher's event handler: a change to a `.md` file runs the flat-layout sync
    script on that file, unless the same path was accepted less than the cooldown ago. The
    handler keeps the time each path was last accepted; times are seconds, as reals. */
module Watcher {
  import opened Wrappers
  import opened Paths

  /** What the notification source reports: the path and whether it is a directory. */
  datatype FsEvent = FsEvent(srcPath: string, isDirectory: bool)

  /** An event with the `time.time()` reading taken when it is handled. */
  datatype Timed = Timed(event: FsEvent, now: real)

  /** `should_sync`: a `.md` path not accepted before, or accepted at least `cooldown` ago. */
  predicate Accepts(lastSync: map<string, real>, cooldown: real, path: string, now: real) {
    Suffix(path) == ".md" && (path !in lastSync || now - lastSync[path] >= cooldown)
  }

  /** The record after handling one event: an accepted path is stamped with the time; a
      directory event or a suppressed one leaves the record as it was. */
  function Step(lastSync: map<string, real>, cooldown: real, e: Timed): map<string, real> {
    if !e.event.isDirectory && Accepts(lastSync, cooldown, e.event.srcPath, e.now)
    then lastSync[e.event.srcPath := e.now]
    else lastSync
  }

  /** The record after handling `events` in order. */
  function Replay(lastSync: map<string, real>, cooldown: real, events: seq<Timed>): map<string, real>
    decreases |events|
  {
    if events == [] then lastSync
    else Step(Replay(lastSync, cooldown, events[..|events| - 1]), cooldown, events[|events| - 1])
  }

  /** Event `j` of `events`, handled after those before it, runs a sync. */
  predicate Synced(lastSync: map<string, real>, cooldown: real, events: seq<Timed>, j: nat)
    requires j < |events|
  {
    !events[j].event.isDirectory
    && Accepts(Replay(lastSync, cooldown, events[..j]), cooldown, events[j].event.srcPath, events[j].now)
  }

  /** The record after the first `k + 1` events is the step of event `k` on the record after `k`. */
  lemma ReplayStep(lastSync: map<string, real>, cooldown: real, events: seq<Timed>, k: nat)
    requires k < |events|
    ensures Replay(lastSync, cooldown, events[..k + 1]) == Step(Replay(lastSync, cooldown, events[..k]), cooldown, events[k])
  {
    assert events[..k + 1][..k] == events[..k];
  }

  /** An event that runs no sync leaves the record as it was: a suppressed event does not
      refresh the time, so the window counts from the last accepted event. */
  lemma SuppressedKeepsRecord(lastSync: map<string, real>, cooldown: real, events: seq<Timed>, j: nat)
    requires j < |events| && !Synced(lastSync, cooldown, events, j)
    ensures Replay(lastSync, cooldown, events[..j + 1]) == Replay(lastSync, cooldown, events[..j])
  {
    ReplayStep(lastSync, cooldown, events, j);
  }

  /** Once event `i` has run a sync, its path stays recorded with a time at least that of
      event `i`: each later accepted time is at least the cooldown past the one before. */
  lemma {:induction false} RecordNotBefore(lastSync: map<string, real>, cooldown: real, events: seq<Timed>, i: nat, k: nat)
    requires cooldown >= 0.0 && i < k <= |events| && Synced(lastSync, cooldown, events, i)
    ensures var p := events[i].event.srcPath;
      p in Replay(lastSync, cooldown, events[..k]) && Replay(lastSync, cooldown, events[..k])[p] >= events[i].now
    decreases k
  {
    var p := events[i].event.srcPath;
    ReplayStep(lastSync, cooldown, events, k - 1);
    if k - 1 > i {
      RecordNotBefore(lastSync, cooldown, events, i, k - 1);
    }
  }

  /** Two syncs run for the same path are at least the cooldown apart. */
  lemma SyncsApart(lastSync: map<string, real>, cooldown: real, events: seq<Timed>, i: nat, j: nat)
    requires cooldown >= 0.0 && i < j < |events|
    requires events[i].event.srcPath == events[j].event.srcPath
    requires Synced(lastSync, cooldown, events, i) && Synced(lastSync, cooldown, events, j)
    ensures events[j].now - events[i].now >= cooldown
  {
    RecordNotBefore(lastSync, cooldown, events, i, j);
  }

  /** A path no earlier event has accepted keeps out of the record. */
  lemma {:induction false} NeverSyncedUnrecorded(lastSync: map<string, real>, cooldown: real, events: seq<Timed>, p: string, k: nat)
    requires k <= |events| && p !in lastSync
    requires forall i :: 0 <= i < k ==> events[i].event.srcPath != p || !Synced(lastSync, cooldown, events, i)
    ensures p !in Replay(lastSync, cooldown, events[..k])
    decreases k
  {
    if k > 0 {
      NeverSyncedUnrecorded(lastSync, cooldown, events, p, k - 1);
      ReplayStep(lastSync, cooldown, events, k - 1);
    }
  }

  /** The first file event for a `.md` path always runs a sync. */
  lemma FirstEventSyncs(cooldown: real, events: seq<Timed>, j: nat)
    requires j < |events| && !events[j].event.isDirectory && Suffix(events[j].event.srcPath) == ".md"
    requires forall i :: 0 <= i < j ==> events[i].event.srcPath != events[j].event.srcPath || events[i].event.isDirectory
    ensures Synced(map[], cooldown, events, j)
  {
    NeverSyncedUnrecorded(map[], cooldown, events, events[j].event.srcPath, j);
  }

  /** A path that is not `.md` never runs a sync. */
  lemma OnlyMarkdownSyncs(lastSync: map<string, real>, cooldown: real, events: seq<Timed>, j: nat)
    requires j < |events| && Synced(lastSync, cooldown, events, j)
    ensures Suffix(events[j].event.srcPath) == ".md"
  {
  }

  /** `ObsidianFileHandler`: the script it runs, whether it passes `--auto-commit`, and the
      per-path record of accepted times with its two-second cooldown. */
  class FileHandler {
    const syncScript: string
    const autoCommit: bool
    const cooldown: real
    var lastSync: map<string, real>

    constructor (syncScript: string, autoCommit: bool)
      ensures this.syncScript == syncScript && this.autoCommit == autoCommit
      ensures cooldown == 2.0 && lastSync == map[]
    {
      this.syncScript := syncScript;
      this.autoCommit := autoCommit;
      cooldown := 2.0;
      lastSync := map[];
    }

    /** The command `sync_file` runs for `path`. */
    function SyncCommand(path: string): (cmd: seq<string>)
      ensures |cmd| == 4 + (if autoCommit then 1 else 0)
      ensures cmd[..4] == ["python3", syncScript, "--single-file", path]
      ensures autoCommit ==> cmd[4] == "--auto-commit"
    {
      ["python3", syncScript, "--single-file", path] + (if autoCommit then ["--auto-commit"] else [])
    }

    /** `should_sync`: the answer is the cooldown rule on the record as it was; an accepted
        path is stamped with `now` and every other entry kept, a refused one changes nothing. */
    method ShouldSync(path: string, now: real) returns (b: bool)
      modifies this
      ensures b == Accepts(old(lastSync), cooldown, path, now)
      ensures lastSync == if b then old(lastSync)[path := now] else old(lastSync)
    {
      if Suffix(path) != ".md" {
        return false;
      }
      if path in lastSync {
        if now - lastSync[path] < cooldown {
          return false;
        }
      }
      lastSync := lastSync[path := now];
      return true;
    }

    /** `on_modified` and `on_created` (they differ only in what they print): a directory
        event is dropped before the cooldown is consulted; a file event that passes it runs
        the sync script on that file. The record afterwards is one step of `Replay`. */
    method OnEvent(event: FsEvent, now: real) returns (ran: Option<seq<string>>)
      modifies this
      ensures lastSync == Step(old(lastSync), cooldown, Timed(event, now))
      ensures event.isDirectory ==> ran.None?
      ensures ran.Some? <==> !event.isDirectory && Accepts(old(lastSync), cooldown, event.srcPath, now)
      ensures ran.Some? ==> ran.value == SyncCommand(event.srcPath)
    {
      if event.isDirectory {
        return None;
      }
      var go := ShouldSync(event.srcPath, now);
      if go {
        ran := Some(SyncCommand(event.srcPath));
      } else {
        ran := None;
      }
    }
  }
}
