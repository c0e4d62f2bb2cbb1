/** `atomicUpdate0` and the recovery in `open` as a step machine over three directory entries. Every system
    call may fail where the source handles failure, and the process may be killed between any two steps. */
module FileSwap {
  import opened Options
  import opened Positional

  type File = seq<Byte>

  /** The vector's path, path + ".bak" and the randomly named temporary file. */
  datatype Disk = Disk(path: Option<File>, bak: Option<File>, tmp: Option<File>)

  /** Where the process is. `Ready`: between operations. `Restoring`: the second rename failed.
      `Cleaning`: an error is on its way out and the temporary file is being deleted. `Dead`: killed, not reopened
      yet. */
  datatype Phase = Ready | Started | Prepared | Writing | Flushed | Moved | Restoring | Cleaning | Swapped | Dead

  /** `atBak`: the mapping's own path is the .bak name, after a failed swap that could not be undone.
      `current` is the file the vector stands for, `next` the one an update in progress is building. */
  datatype State = State(disk: Disk, phase: Phase, atBak: bool, current: File, next: File)

  /** What `open` will map: the path if it is there, otherwise the .bak file. */
  function Recovered(d: Disk): Option<File>
  {
    if d.path.Some? then d.path else d.bak
  }

  /** What can happen next. `Begin`: enter atomicUpdate0. `RemoveBak`: remove a stale .bak file, if there is one.
      `Create`, `Write`, `Flush`: the temporary file, in any partial state. `InPlace`: push_back, pop_back, clear and
      writes through operator[]. `OpenRemoveBak`, `OpenRenameBak`: recovery when both names exist, or only .bak.
      `OpenMap`: map the file at the path. */
  datatype Action =
    | Begin(next: File)
    | RemoveBak(ok: bool)
    | Create(ok: bool)
    | Write(bytes: File)
    | Flush(ok: bool)
    | RenameToBak(ok: bool)
    | RenameToPath(ok: bool)
    | RenameBack(ok: bool)
    | DeleteTmp(ok: bool)
    | DeleteBak(ok: bool)
    | InPlace(bytes: File)
    | Kill
    | OpenRemoveBak
    | OpenRenameBak
    | OpenMap

  predicate Enabled(s: State, a: Action)
  {
    match a
    case Begin(_) => s.phase == Ready && !s.atBak
    case RemoveBak(_) => s.phase == Started
    case Create(_) => s.phase == Prepared
    case Write(_) => s.phase == Writing
    case Flush(_) => s.phase == Writing
    case RenameToBak(_) => s.phase == Flushed
    case RenameToPath(_) => s.phase == Moved
    case RenameBack(_) => s.phase == Restoring
    case DeleteTmp(_) => s.phase == Cleaning
    case DeleteBak(_) => s.phase == Swapped
    case InPlace(_) => s.phase == Ready
    case Kill => true
    case OpenRemoveBak => s.phase == Dead && s.disk.path.Some? && s.disk.bak.Some?
    case OpenRenameBak => s.phase == Dead && s.disk.path.None? && s.disk.bak.Some?
    case OpenMap => s.phase == Dead && s.disk.path.Some? && s.disk.bak.None?
  }

  function Step(s: State, a: Action): State
    requires Enabled(s, a)
  {
    var d := s.disk;
    match a
    case Begin(next) => s.(phase := Started, next := next)
    case RemoveBak(ok) => if ok then s.(disk := d.(bak := None), phase := Prepared) else s.(phase := Ready)
    case Create(ok) => if ok then s.(disk := d.(tmp := Some([])), phase := Writing) else s.(phase := Cleaning)
    case Write(bytes) => s.(disk := d.(tmp := Some(bytes)))
    case Flush(ok) => if ok then s.(disk := d.(tmp := Some(s.next)), phase := Flushed) else s.(phase := Cleaning)
    case RenameToBak(ok) =>
      if ok then s.(disk := d.(path := None, bak := d.path), phase := Moved) else s.(phase := Cleaning)
    case RenameToPath(ok) =>
      if ok then s.(disk := d.(path := d.tmp, tmp := None), phase := Swapped) else s.(phase := Restoring)
    case RenameBack(ok) =>
      if ok then s.(disk := d.(path := d.bak, bak := None), phase := Cleaning) else s.(phase := Cleaning, atBak := true)
    case DeleteTmp(ok) => s.(disk := if ok then d.(tmp := None) else d, phase := Ready)
    case DeleteBak(ok) => s.(disk := if ok then d.(bak := None) else d, phase := Ready, current := s.next)
    case InPlace(bytes) =>
      s.(disk := if s.atBak then d.(bak := Some(bytes)) else d.(path := Some(bytes)), current := bytes)
    case Kill => s.(phase := Dead, atBak := false, current := if s.phase == Swapped then s.next else s.current)
    case OpenRemoveBak => s.(disk := d.(bak := None))
    case OpenRenameBak => s.(disk := d.(path := d.bak, bak := None))
    case OpenMap => s.(phase := Ready)
  }

  /** The file that counts: the new one from the second rename on. */
  function Committed(s: State): File
  {
    if s.phase == Swapped then s.next else s.current
  }

  /** The complete copies on disk, phase by phase. */
  ghost predicate Inv(s: State)
  {
    match s.phase
    case Started | Prepared | Writing | Flushed =>
      !s.atBak && s.disk.path == Some(s.current) && (s.phase == Flushed ==> s.disk.tmp == Some(s.next))
    case Moved => !s.atBak && s.disk.path == None && s.disk.bak == Some(s.current) && s.disk.tmp == Some(s.next)
    case Restoring => !s.atBak && s.disk.path == None && s.disk.bak == Some(s.current)
    case Swapped => !s.atBak && s.disk.path == Some(s.next) && s.disk.bak == Some(s.current)
    case Ready | Cleaning =>
      if s.atBak then s.disk.path == None && s.disk.bak == Some(s.current) else s.disk.path == Some(s.current)
    case Dead => !s.atBak && Recovered(s.disk) == Some(s.current)
  }

  lemma StepKeeps(s: State, a: Action)
    requires Inv(s) && Enabled(s, a)
    ensures Inv(Step(s, a))
  {
  }

  /** A run over any number of updates, failures, kills and reopenings of a vector that starts out mapped. */
  ghost predicate Run(file: File, states: seq<State>, actions: seq<Action>)
  {
    && |states| == |actions| + 1
    && states[0].phase == Ready && !states[0].atBak && states[0].current == file && states[0].disk.path == Some(file)
    && forall i :: 0 <= i < |actions| ==> Enabled(states[i], actions[i]) && states[i + 1] == Step(states[i], actions[i])
  }

  lemma {:induction false} RunKeeps(file: File, states: seq<State>, actions: seq<Action>, i: nat)
    requires Run(file, states, actions) && i < |states|
    ensures Inv(states[i])
  {
    if i > 0 {
      RunKeeps(file, states, actions, i - 1);
      StepKeeps(states[i - 1], actions[i - 1]);
    }
  }

  /** At every moment of every run the file `open` would recover is complete: the current one, or from the
      second rename on the new one. No step ever deletes it. */
  lemma AlwaysRecoverable(file: File, states: seq<State>, actions: seq<Action>, i: nat)
    requires Run(file, states, actions) && i < |states|
    ensures Recovered(states[i].disk) == Some(Committed(states[i]))
  {
    RunKeeps(file, states, actions, i);
  }

  /** The committed file changes only at the second rename of an update, and by in-place writes. */
  lemma CommitPoint(s: State, a: Action)
    requires Inv(s) && Enabled(s, a)
    ensures Committed(Step(s, a)) ==
      (match a
       case RenameToPath(true) => s.next
       case InPlace(bytes) => bytes
       case _ => Committed(s))
  {
  }

  /** Between the start of an update at `i` and `j`: has the second rename succeeded? */
  ghost predicate Renamed(actions: seq<Action>, i: nat, j: nat)
    requires j <= |actions|
  {
    exists k :: i < k < j && actions[k] == RenameToPath(true)
  }

  /** No other update and no in-place write begins strictly between `i` and `j`. */
  ghost predicate OneUpdate(actions: seq<Action>, i: nat, j: nat)
    requires i < j <= |actions|
  {
    actions[i].Begin? && forall k :: i < k < j ==> !actions[k].Begin? && !actions[k].InPlace?
  }

  /** Whatever fails and however often the process is killed and the file reopened, an update is all or nothing:
      what counts is the new file exactly if the second rename succeeded, and the old file otherwise. */
  lemma {:induction false} UpdateAllOrNothing(file: File, states: seq<State>, actions: seq<Action>, i: nat, j: nat)
    requires Run(file, states, actions) && i < j < |states| && OneUpdate(actions, i, j)
    ensures states[j].next == actions[i].next
    ensures Recovered(states[j].disk) == Some(if Renamed(actions, i, j) then actions[i].next else states[i].current)
  {
    hide Inv, Step, Enabled, Recovered, Committed;
    var k := j - 1;
    AlwaysRecoverable(file, states, actions, j);
    RunKeeps(file, states, actions, k);
    CommitPoint(states[k], actions[k]);
    NextStays(states[k], actions[k]);
    if k == i {
      AlwaysRecoverable(file, states, actions, i);
      BeginIsReady(states[i], actions[i]);
    } else {
      UpdateAllOrNothing(file, states, actions, i, k);
      AlwaysRecoverable(file, states, actions, k);
      if actions[k] == RenameToPath(true) {
        assert Renamed(actions, i, j);
      } else {
        assert Renamed(actions, i, j) <==> Renamed(actions, i, k);
      }
    }
  }

  lemma NextStays(s: State, a: Action)
    requires Enabled(s, a)
    ensures Step(s, a).next == if a.Begin? then a.next else s.next
  {
  }

  lemma BeginIsReady(s: State, a: Action)
    requires Enabled(s, a) && a.Begin?
    ensures Committed(s) == s.current
  {
  }

  /** The state after the given steps, when each of them is possible in turn. */
  function Follow(s: State, actions: seq<Action>): Option<State>
    decreases |actions|
  {
    if actions == [] then Some(s)
    else if Enabled(s, actions[0]) then Follow(Step(s, actions[0]), actions[1..])
    else None
  }

  lemma FollowOne(s: State, a: Action, rest: seq<Action>)
    requires Enabled(s, a)
    ensures Follow(s, [a] + rest) == Follow(Step(s, a), rest)
  {
    assert ([a] + rest)[1..] == rest;
  }

  /** An update in which every call succeeds replaces the file and leaves no other one behind. */
  lemma UpdateCompletes(s: State, next: File)
    requires Inv(s) && s.phase == Ready && !s.atBak
    ensures Follow(s, [Begin(next), RemoveBak(true), Create(true), Flush(true)]
        + [RenameToBak(true), RenameToPath(true), DeleteBak(true)])
      == Some(State(Disk(Some(next), None, None), Ready, false, next, next))
  {
    hide Follow;
    var flushed := s.(disk := Disk(Some(s.current), None, Some(next)), phase := Flushed, next := next);
    var a := [Begin(next), RemoveBak(true), Create(true), Flush(true)];
    var b := [RenameToBak(true), RenameToPath(true), DeleteBak(true)];
    assert Follow(s, a + b) == Follow(flushed, b) by { FirstHalf(s, next, b); }
    SecondHalf(flushed);
  }

  lemma FirstHalf(s: State, next: File, rest: seq<Action>)
    requires Inv(s) && s.phase == Ready && !s.atBak
    ensures Follow(s, [Begin(next), RemoveBak(true), Create(true), Flush(true)] + rest)
      == Follow(s.(disk := Disk(Some(s.current), None, Some(next)), phase := Flushed, next := next), rest)
  {
    hide Follow;
    var a, b, c, d := Begin(next), RemoveBak(true), Create(true), Flush(true);
    assert [a, b, c, d] + rest == [a] + ([b] + ([c] + ([d] + rest)));
    var s1 := Step(s, a);
    var s2 := Step(s1, b);
    var s3 := Step(s2, c);
    FollowOne(s, a, [b] + ([c] + ([d] + rest)));
    FollowOne(s1, b, [c] + ([d] + rest));
    FollowOne(s2, c, [d] + rest);
    FollowOne(s3, d, rest);
  }

  lemma SecondHalf(s: State)
    requires s.phase == Flushed && !s.atBak && s.disk == Disk(Some(s.current), None, Some(s.next))
    ensures Follow(s, [RenameToBak(true), RenameToPath(true), DeleteBak(true)])
      == Some(State(Disk(Some(s.next), None, None), Ready, false, s.next, s.next))
  {
    var a, b, c := RenameToBak(true), RenameToPath(true), DeleteBak(true);
    assert [a, b, c] == [a] + ([b] + ([c] + []));
    var s1 := Step(s, a);
    var s2 := Step(s1, b);
    assert Follow(Step(s2, c), []) == Some(Step(s2, c));
    hide Follow;
    FollowOne(s, a, [b] + ([c] + []));
    FollowOne(s1, b, [c] + []);
    FollowOne(s2, c, []);
  }

  /** The steps `open` takes on what a killed process left. */
  function Recovery(d: Disk): seq<Action>
  {
    if d.bak.None? then [OpenMap] else if d.path.Some? then [OpenRemoveBak, OpenMap] else [OpenRenameBak, OpenMap]
  }

  /** Opening always succeeds after a kill, maps the file that counts, and removes the other one. */
  lemma RecoveryCompletes(s: State)
    requires Inv(s) && s.phase == Dead
    ensures Follow(s, Recovery(s.disk))
      == Some(s.(disk := Disk(Some(s.current), None, s.disk.tmp), phase := Ready))
  {
    var o := OpenMap;
    if s.disk.bak.None? {
      assert Follow(Step(s, o), []) == Some(Step(s, o));
    } else {
      var a := if s.disk.path.Some? then OpenRemoveBak else OpenRenameBak;
      var s1 := Step(s, a);
      assert Follow(Step(s1, o), []) == Some(Step(s1, o));
      assert [a, o][1..] == [o] && [o][1..] == [];
      assert Follow(s1, [o]) == Some(Step(s1, o));
    }
  }
}
