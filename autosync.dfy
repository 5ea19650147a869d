/** Automatic synchronisation: `start_auto_sync`, which compares the two save
    directories of every configured game and copies the strictly newer one
    over the older one, and `AutoSyncHandler.on_modified`, which syncs every
    configured pair whose source path is a prefix of a modified path.

    Both run on a SaveStore. The clock they read is `clock`: `clock(k)` is the
    k-th truncated `time.time()` reading taken during the call, and every
    sync takes two readings, one per backup. */
module AutoSync {
  import opened SaveFs

  /** One entry of the `games` list of the configuration. */
  datatype Game = Game(name: string, yuzuSavePath: Path, ryujinxSavePath: Path)

  datatype Direction = YuzuToRyujinx | RyujinxToYuzu | NoSync

  /** The decision of `start_auto_sync` for one game, from the two times:
      the strictly newer side is copied onto the other, and equal times
      leave both alone. */
  function Decide(yuzuTime: int, ryujinxTime: int): (d: Direction)
    ensures d == YuzuToRyujinx <==> yuzuTime > ryujinxTime
    ensures d == RyujinxToYuzu <==> ryujinxTime > yuzuTime
    ensures d == NoSync <==> yuzuTime == ryujinxTime
  {
    if yuzuTime > ryujinxTime then YuzuToRyujinx
    else if ryujinxTime > yuzuTime then RyujinxToYuzu
    else NoSync
  }

  // ---------------------------------------------------------------------------
  // start_auto_sync

  /** The store after one game's turn, the next clock reading to take, the
      decision taken, and the exception that ended the turn, if any. */
  datatype Step = Step(fs: Fs, tick: nat, direction: Direction, error: Option<FsError>)

  /** One iteration of the loop of `start_auto_sync`. A game left alone
      writes nothing and reads no clock; a sync reads it twice.
      ReconcileGameEffect states what the sync does. */
  function ReconcileGame(fs: Fs, g: Game, clock: nat -> int, tick: nat): (s: Step)
    ensures s.direction == NoSync ==> s.fs == fs && s.tick == tick
    ensures s.direction != NoSync ==> s.tick == tick + 2
  {
    match LastModified(fs, g.yuzuSavePath)
    case Err(e) => Step(fs, tick, NoSync, Some(e))
    case Ok(yuzuTime) =>
      match LastModified(fs, g.ryujinxSavePath)
      case Err(e) => Step(fs, tick, NoSync, Some(e))
      case Ok(ryujinxTime) =>
        var d := Decide(yuzuTime, ryujinxTime);
        if d == NoSync then Step(fs, tick, d, None)
        else
          var src := if d == YuzuToRyujinx then g.yuzuSavePath else g.ryujinxSavePath;
          var dst := if d == YuzuToRyujinx then g.ryujinxSavePath else g.yuzuSavePath;
          var o := Synced(fs, src, dst, clock(tick), clock(tick + 1));
          Step(o.fs, tick + 2, d, if o.result.Ok? then None else Some(o.result.error))
  }

  /** What one game's turn does. If either time cannot be taken, nothing
      changes. Otherwise, when the turn raises nothing, the newer side's
      tree is copied onto the older side, the newer side itself is left as
      it was, both sides are backed up under new paths holding their trees
      from before the turn, and no other path is added or changes; equal
      times change nothing at all. */
  lemma ReconcileGameEffect(fs: Fs, g: Game, clock: nat -> int, tick: nat)
    ensures var s := ReconcileGame(fs, g, clock, tick);
            LastModified(fs, g.yuzuSavePath).Err? || LastModified(fs, g.ryujinxSavePath).Err? ==>
              s.fs == fs && s.error.Some?
    ensures var s := ReconcileGame(fs, g, clock, tick);
            var y, r := g.yuzuSavePath, g.ryujinxSavePath;
            s.error.None? ==>
              && LastModified(fs, y).Ok? && LastModified(fs, r).Ok?
              && var yt, rt := LastModified(fs, y).value, LastModified(fs, r).value;
              && s.direction == Decide(yt, rt)
              && (yt == rt ==> s.fs == fs)
              && (yt > rt ==> r in s.fs && s.fs[r] == fs[y] && y in s.fs && s.fs[y] == fs[y])
              && (yt > rt ==> forall k :: k in fs && k != r ==> k in s.fs && s.fs[k] == fs[k])
              && (rt > yt ==> y in s.fs && s.fs[y] == fs[r] && r in s.fs && s.fs[r] == fs[r])
              && (rt > yt ==> forall k :: k in fs && k != y ==> k in s.fs && s.fs[k] == fs[k])
    ensures var s := ReconcileGame(fs, g, clock, tick);
            var y, r := g.yuzuSavePath, g.ryujinxSavePath;
            var yb, rb := BackupPath(y, clock(tick)), BackupPath(r, clock(tick + 1));
            s.error.None? && s.direction == YuzuToRyujinx ==>
              && y in fs && r in fs && yb !in fs && rb !in fs
              && s.fs.Keys == fs.Keys + {yb, rb}
              && s.fs[yb] == fs[y] && s.fs[rb] == fs[r]
    ensures var s := ReconcileGame(fs, g, clock, tick);
            var y, r := g.yuzuSavePath, g.ryujinxSavePath;
            var rb, yb := BackupPath(r, clock(tick)), BackupPath(y, clock(tick + 1));
            s.error.None? && s.direction == RyujinxToYuzu ==>
              && y in fs && r in fs && yb !in fs && rb !in fs
              && s.fs.Keys == fs.Keys + {yb, rb}
              && s.fs[yb] == fs[y] && s.fs[rb] == fs[r]
  {
    var s := ReconcileGame(fs, g, clock, tick);
    var y, r := g.yuzuSavePath, g.ryujinxSavePath;
    if LastModified(fs, y).Ok? && LastModified(fs, r).Ok? && s.error.None? {
      var yt, rt := LastModified(fs, y).value, LastModified(fs, r).value;
      if yt > rt {
        SyncedOk(fs, y, r, clock(tick), clock(tick + 1));
      } else if rt > yt {
        SyncedOk(fs, r, y, clock(tick), clock(tick + 1));
      }
    }
  }

  /** A game's turn whose `sync_save` raises deletes and overwrites
      nothing: at most the newer side has been backed up, under a new path. */
  lemma ReconcileGameRaisesKeepsSaves(fs: Fs, g: Game, clock: nat -> int, tick: nat)
    requires ReconcileGame(fs, g, clock, tick).error.Some?
    ensures var s := ReconcileGame(fs, g, clock, tick);
            var y, r := g.yuzuSavePath, g.ryujinxSavePath;
            || s.fs == fs
            || (s.direction == YuzuToRyujinx && y in fs && BackupPath(y, clock(tick)) !in fs
                && s.fs == fs[BackupPath(y, clock(tick)) := fs[y]])
            || (s.direction == RyujinxToYuzu && r in fs && BackupPath(r, clock(tick)) !in fs
                && s.fs == fs[BackupPath(r, clock(tick)) := fs[r]])
  {
    var y, r := g.yuzuSavePath, g.ryujinxSavePath;
    if LastModified(fs, y).Ok? && LastModified(fs, r).Ok? {
      var yt, rt := LastModified(fs, y).value, LastModified(fs, r).value;
      if yt > rt {
        SyncedErrKeepsSaves(fs, y, r, clock(tick), clock(tick + 1));
      } else if rt > yt {
        SyncedErrKeepsSaves(fs, r, y, clock(tick), clock(tick + 1));
      }
    }
  }

  /** A game's turn that completes leaves it settled: running the turn again
      on the result finds equal times and changes nothing. */
  lemma ReconcileSettles(fs: Fs, g: Game, clock: nat -> int, tick: nat, tick': nat)
    requires ReconcileGame(fs, g, clock, tick).error.None?
    ensures var s := ReconcileGame(fs, g, clock, tick);
            ReconcileGame(s.fs, g, clock, tick') == Step(s.fs, tick', NoSync, None)
  {
    ReconcileGameEffect(fs, g, clock, tick);
  }

  /** What `start_auto_sync` has done: the store, the games it got through
      with the decision taken for each, and the exception that stopped it. */
  datatype Run = Run(fs: Fs, visits: seq<(Game, Direction)>, error: Option<FsError>)

  /** The loop of `start_auto_sync` with the turn a game gets left open as
      `turn`: the games in order, after the turns recorded in `done`,
      stopping at the first turn that raises. */
  function RunGames(turn: (Fs, Game, nat) -> Step, fs: Fs, games: seq<Game>, tick: nat, done: seq<(Game, Direction)>): (run: Run)
    ensures done <= run.visits
    decreases |games|
  {
    if games == [] then Run(fs, done, None)
    else
      var s := turn(fs, games[0], tick);
      if s.error.Some? then Run(s.fs, done, s.error)
      else RunGames(turn, s.fs, games[1..], s.tick, done + [(games[0], s.direction)])
  }

  /** A turn that raises ends `start_auto_sync`: whatever games follow in
      the list, the store, the visits and the error are the same, so none
      of them gets a turn. */
  lemma {:induction false} RunGamesStopsAtError(turn: (Fs, Game, nat) -> Step, fs: Fs, games: seq<Game>, more: seq<Game>, tick: nat, done: seq<(Game, Direction)>)
    requires RunGames(turn, fs, games, tick, done).error.Some?
    ensures RunGames(turn, fs, games + more, tick, done) == RunGames(turn, fs, games, tick, done)
    decreases |games|
  {
    assert (games + more)[0] == games[0] && (games + more)[1..] == games[1..] + more;
    var s := turn(fs, games[0], tick);
    if s.error.None? {
      RunGamesStopsAtError(turn, s.fs, games[1..], more, s.tick, done + [(games[0], s.direction)]);
    }
  }

  /** The turn every game gets in `start_auto_sync` under `clock`. */
  function Turn(clock: nat -> int): (Fs, Game, nat) -> Step
  {
    (fs: Fs, g: Game, tick: nat) => ReconcileGame(fs, g, clock, tick)
  }

  /** The games are taken in configuration order, each once, with one
      decision each; the loop gets through all of them exactly when nothing
      raises. This holds whatever a turn does. */
  lemma {:induction false} RunGamesVisitsInOrder(turn: (Fs, Game, nat) -> Step, fs: Fs, games: seq<Game>, tick: nat, done: seq<(Game, Direction)>)
    ensures var run := RunGames(turn, fs, games, tick, done);
            && |done| <= |run.visits| <= |done| + |games|
            && (run.error.None? <==> |run.visits| == |done| + |games|)
            && run.visits[..|done|] == done
            && forall i :: |done| <= i < |run.visits| ==> run.visits[i].0 == games[i - |done|]
    decreases |games|
  {
    if games != [] {
      var s := turn(fs, games[0], tick);
      if s.error.None? {
        var done' := done + [(games[0], s.direction)];
        RunGamesVisitsInOrder(turn, s.fs, games[1..], s.tick, done');
        var run := RunGames(turn, s.fs, games[1..], s.tick, done');
        assert run.visits[..|done|] == run.visits[..|done'|][..|done|];
        forall i | |done| <= i < |run.visits|
          ensures run.visits[i].0 == games[i - |done|]
        {
          if i == |done| {
            assert run.visits[i] == run.visits[..|done'|][i];
          } else {
            assert run.visits[i].0 == games[1..][i - |done'|];
          }
        }
      }
    }
  }

  /** `start_auto_sync` over the configured `games`. It returns the games it
      got through with their decisions, and the exception that stopped it. */
  method StartAutoSync(store: SaveStore, games: seq<Game>, clock: nat -> int)
    returns (visits: seq<(Game, Direction)>, error: Option<FsError>)
    modifies store
    ensures RunGames(Turn(clock), old(store.dirs), games, 0, []) == Run(store.dirs, visits, error)
  {
    visits, error := [], None;
    var tick := 0;
    for i := 0 to |games|
      invariant RunGames(Turn(clock), store.dirs, games[i..], tick, visits) == RunGames(Turn(clock), old(store.dirs), games, 0, [])
    {
      var game := games[i];
      assert games[i..][0] == game && games[i..][1..] == games[i + 1..];
      var yuzuTime := LastModified(store.dirs, game.yuzuSavePath);
      if yuzuTime.Err? {
        return visits, Some(yuzuTime.error);
      }
      var ryujinxTime := LastModified(store.dirs, game.ryujinxSavePath);
      if ryujinxTime.Err? {
        return visits, Some(ryujinxTime.error);
      }
      var direction := NoSync;
      if yuzuTime.value > ryujinxTime.value {
        direction := YuzuToRyujinx;
        var synced := store.SyncSave(game.yuzuSavePath, game.ryujinxSavePath, clock(tick), clock(tick + 1));
        tick := tick + 2;
        if synced.Err? {
          return visits, Some(synced.error);
        }
      } else if ryujinxTime.value > yuzuTime.value {
        direction := RyujinxToYuzu;
        var synced := store.SyncSave(game.ryujinxSavePath, game.yuzuSavePath, clock(tick), clock(tick + 1));
        tick := tick + 2;
        if synced.Err? {
          return visits, Some(synced.error);
        }
      }
      visits := visits + [(game, direction)];
    }
    assert games[|games|..] == [];
  }

  /** The scenario of one game whose yuzu save was written at second 1000
      and whose ryujinx save at second 500: the yuzu save is backed up and
      kept, and the ryujinx save is backed up and replaced by it. */
  lemma ZeldaScenario(clock: nat -> int, yuzuSave: seq<bv8>, ryujinxSave: seq<bv8>)
    ensures var y, r := "/save/yuzu/zelda", "/save/ryujinx/zelda";
            var yuzuTree, ryujinxTree := Tree([File("main", 1000, yuzuSave)]), Tree([File("main", 500, ryujinxSave)]);
            ReconcileGame(map[y := yuzuTree, r := ryujinxTree], Game("Zelda", y, r), clock, 0)
            == Step(map[y := yuzuTree, r := yuzuTree, BackupPath(y, clock(0)) := yuzuTree, BackupPath(r, clock(1)) := ryujinxTree],
                    2, YuzuToRyujinx, None)
  {
    var y, r := "/save/yuzu/zelda", "/save/ryujinx/zelda";
    var yuzuTree, ryujinxTree := Tree([File("main", 1000, yuzuSave)]), Tree([File("main", 500, ryujinxSave)]);
    var fs := map[y := yuzuTree, r := ryujinxTree];
    var bs, bd := BackupPath(y, clock(0)), BackupPath(r, clock(1));
    assert bs[6] == 'y' && bd[6] == 'r' && y[6] == 'y' && r[6] == 'r';
    assert LastModified(fs, y) == Ok(1000);
    assert LastModified(fs, r) == Ok(500);
    SyncedOkIff(fs, y, r, clock(0), clock(1));
    SyncedOk(fs, y, r, clock(0), clock(1));
    assert Synced(fs, y, r, clock(0), clock(1)).fs == map[y := yuzuTree, r := yuzuTree, bs := yuzuTree, bd := ryujinxTree];
  }

  // ---------------------------------------------------------------------------
  // AutoSyncHandler.on_modified

  /** One `(src_path, dst_path)` entry of the handler's `sync_paths`. */
  datatype SyncPair = SyncPair(srcPath: Path, dstPath: Path)

  /** The pairs, in list order, whose source path is a character-level
      prefix of the modified path (`str.startswith`). */
  function Matching(pairs: seq<SyncPair>, eventPath: Path): (m: seq<SyncPair>)
    ensures forall p :: p in m <==> p in pairs && p.srcPath <= eventPath
    ensures |m| <= |pairs|
  {
    if pairs == [] then []
    else if pairs[0].srcPath <= eventPath then [pairs[0]] + Matching(pairs[1..], eventPath)
    else Matching(pairs[1..], eventPath)
  }

  /** The match is on characters, not on path components: a save directory
      `/a/zelda` matches a change under `/a/zelda2`. */
  lemma PrefixIsCharacterLevel()
    ensures Matching([SyncPair("/a/zelda", "/b/zelda")], "/a/zelda2/x") == [SyncPair("/a/zelda", "/b/zelda")]
  {
  }

  /** What `on_modified` has done: the store, the pairs it synced, and the
      exception that stopped it. */
  datatype Dispatched = Dispatched(fs: Fs, fired: seq<SyncPair>, error: Option<FsError>)

  /** The rest of the loop of `on_modified`, over `pairs`, after the syncs
      recorded in `fired`. The first exception ends the loop. The pairs
      already synced stay recorded, and at most one more is recorded per
      pair left. */
  function Dispatch(fs: Fs, pairs: seq<SyncPair>, eventPath: Path, clock: nat -> int, tick: nat, fired: seq<SyncPair>): (d: Dispatched)
    ensures fired <= d.fired && |d.fired| <= |fired| + |pairs|
    decreases |pairs|
  {
    if pairs == [] then Dispatched(fs, fired, None)
    else if pairs[0].srcPath <= eventPath then
      var o := Synced(fs, pairs[0].srcPath, pairs[0].dstPath, clock(tick), clock(tick + 1));
      if o.result.Err? then Dispatched(o.fs, fired + [pairs[0]], Some(o.result.error))
      else Dispatch(o.fs, pairs[1..], eventPath, clock, tick + 2, fired + [pairs[0]])
    else Dispatch(fs, pairs[1..], eventPath, clock, tick, fired)
  }

  /** `on_modified` syncs the matching pairs, in list order, and no others:
      when nothing raises, exactly the matching pairs; when a sync raises,
      a non-empty prefix of them. With no matching pair the store is
      untouched. */
  lemma {:induction false} DispatchFiresMatching(fs: Fs, pairs: seq<SyncPair>, eventPath: Path, clock: nat -> int, tick: nat, fired: seq<SyncPair>)
    ensures var d := Dispatch(fs, pairs, eventPath, clock, tick, fired);
            var m := Matching(pairs, eventPath);
            && d.fired <= fired + m
            && (d.error.None? ==> d.fired == fired + m)
            && (d.error.Some? ==> |d.fired| > |fired|)
            && (m == [] ==> d == Dispatched(fs, fired, None))
    decreases |pairs|
  {
    if pairs != [] {
      var m := Matching(pairs, eventPath);
      var rest := Matching(pairs[1..], eventPath);
      if pairs[0].srcPath <= eventPath {
        var o := Synced(fs, pairs[0].srcPath, pairs[0].dstPath, clock(tick), clock(tick + 1));
        assert fired + m == (fired + [pairs[0]]) + rest;
        if o.result.Ok? {
          DispatchFiresMatching(o.fs, pairs[1..], eventPath, clock, tick + 2, fired + [pairs[0]]);
        }
      } else {
        DispatchFiresMatching(fs, pairs[1..], eventPath, clock, tick, fired);
      }
    }
  }

  /** A sync that raises ends `on_modified`: whatever pairs follow in the
      list, matching or not, the outcome is the same, so none of them is
      synced. */
  lemma {:induction false} DispatchStopsAtError(fs: Fs, pairs: seq<SyncPair>, more: seq<SyncPair>, eventPath: Path, clock: nat -> int, tick: nat, fired: seq<SyncPair>)
    requires Dispatch(fs, pairs, eventPath, clock, tick, fired).error.Some?
    ensures Dispatch(fs, pairs + more, eventPath, clock, tick, fired) == Dispatch(fs, pairs, eventPath, clock, tick, fired)
    decreases |pairs|
  {
    assert (pairs + more)[0] == pairs[0] && (pairs + more)[1..] == pairs[1..] + more;
    if pairs[0].srcPath <= eventPath {
      var o := Synced(fs, pairs[0].srcPath, pairs[0].dstPath, clock(tick), clock(tick + 1));
      if o.result.Ok? {
        DispatchStopsAtError(o.fs, pairs[1..], more, eventPath, clock, tick + 2, fired + [pairs[0]]);
      }
    } else {
      DispatchStopsAtError(fs, pairs[1..], more, eventPath, clock, tick, fired);
    }
  }

  /** Syncing each of `pairs` in turn, source onto destination, with no
      match test, stopping at the first sync that raises. */
  function SyncEach(fs: Fs, pairs: seq<SyncPair>, clock: nat -> int, tick: nat, fired: seq<SyncPair>): (d: Dispatched)
    ensures fired <= d.fired && |d.fired| <= |fired| + |pairs|
    decreases |pairs|
  {
    if pairs == [] then Dispatched(fs, fired, None)
    else
      var o := Synced(fs, pairs[0].srcPath, pairs[0].dstPath, clock(tick), clock(tick + 1));
      if o.result.Err? then Dispatched(o.fs, fired + [pairs[0]], Some(o.result.error))
      else SyncEach(o.fs, pairs[1..], clock, tick + 2, fired + [pairs[0]])
  }

  /** What `on_modified` does to the store: exactly what syncing the
      matching pairs one after the other does, each from its source onto its
      destination, with the same clock readings and the same stop. */
  lemma {:induction false} DispatchSyncsMatching(fs: Fs, pairs: seq<SyncPair>, eventPath: Path, clock: nat -> int, tick: nat, fired: seq<SyncPair>)
    ensures Dispatch(fs, pairs, eventPath, clock, tick, fired) == SyncEach(fs, Matching(pairs, eventPath), clock, tick, fired)
    decreases |pairs|
  {
    if pairs != [] {
      var m := Matching(pairs, eventPath);
      if pairs[0].srcPath <= eventPath {
        assert m[0] == pairs[0] && m[1..] == Matching(pairs[1..], eventPath);
        var o := Synced(fs, pairs[0].srcPath, pairs[0].dstPath, clock(tick), clock(tick + 1));
        if o.result.Ok? {
          DispatchSyncsMatching(o.fs, pairs[1..], eventPath, clock, tick + 2, fired + [pairs[0]]);
        }
      } else {
        DispatchSyncsMatching(fs, pairs[1..], eventPath, clock, tick, fired);
      }
    }
  }

  /** A change under exactly one configured source: `on_modified` performs
      that one `sync_save`, and when it succeeds the destination holds the
      source's old tree and the source is unchanged. */
  lemma DispatchOneMatch(fs: Fs, pairs: seq<SyncPair>, eventPath: Path, clock: nat -> int, tick: nat, fired: seq<SyncPair>, p: SyncPair)
    requires Matching(pairs, eventPath) == [p]
    ensures var o := Synced(fs, p.srcPath, p.dstPath, clock(tick), clock(tick + 1));
            Dispatch(fs, pairs, eventPath, clock, tick, fired)
            == Dispatched(o.fs, fired + [p], if o.result.Ok? then None else Some(o.result.error))
    ensures var d := Dispatch(fs, pairs, eventPath, clock, tick, fired);
            d.error.None? ==> p.srcPath in fs && p.dstPath in d.fs && d.fs[p.dstPath] == fs[p.srcPath]
                              && p.srcPath in d.fs && d.fs[p.srcPath] == fs[p.srcPath]
  {
    DispatchSyncsMatching(fs, pairs, eventPath, clock, tick, fired);
    assert [p][1..] == [];
    var o := Synced(fs, p.srcPath, p.dstPath, clock(tick), clock(tick + 1));
    if o.result.Ok? {
      SyncedOk(fs, p.srcPath, p.dstPath, clock(tick), clock(tick + 1));
    }
  }

  /** The watchdog handler. It keeps the pairs it was built with. */
  class AutoSyncHandler {
    const syncPaths: seq<SyncPair>

    constructor (syncPaths: seq<SyncPair>)
      ensures this.syncPaths == syncPaths
    {
      this.syncPaths := syncPaths;
    }

    /** `on_modified` for a change at `eventPath`. It returns the pairs it
        synced and the exception that stopped it. */
    method OnModified(store: SaveStore, eventPath: Path, clock: nat -> int)
      returns (fired: seq<SyncPair>, error: Option<FsError>)
      modifies store
      ensures Dispatch(old(store.dirs), syncPaths, eventPath, clock, 0, []) == Dispatched(store.dirs, fired, error)
    {
      fired, error := [], None;
      var tick := 0;
      for i := 0 to |syncPaths|
        invariant Dispatch(store.dirs, syncPaths[i..], eventPath, clock, tick, fired)
                  == Dispatch(old(store.dirs), syncPaths, eventPath, clock, 0, [])
      {
        var pair := syncPaths[i];
        assert syncPaths[i..][0] == pair && syncPaths[i..][1..] == syncPaths[i + 1..];
        if pair.srcPath <= eventPath {
          var synced := store.SyncSave(pair.srcPath, pair.dstPath, clock(tick), clock(tick + 1));
          tick := tick + 2;
          fired := fired + [pair];
          if synced.Err? {
            return fired, Some(synced.error);
          }
        }
      }
      assert syncPaths[|syncPaths|..] == [];
    }
  }
}
