/** Crash atomicity of the file-mapped vector: the operations, the swap protocol and the file layout put together. */
module VectorCrash {
  import opened Options
  import opened Positional
  import opened VectorLayout
  import opened VectorOps
  import FileSwap

  /** The file found on disk opens, with the prefix size of `v`, to exactly `v`. */
  ghost predicate Reopens(disk: FileSwap.Disk, v: Image, width: nat)
  {
    var found := FileSwap.Recovered(disk);
    found.Some? && |found.value| < TWO64 && |v.prefix| + 16 < TWO64 && Open(found.value, |v.prefix|, width) == Ok(v)
  }

  lemma LayoutReopens(disk: FileSwap.Disk, v: Image, width: nat)
    requires Valid(v, width) && FileSwap.Recovered(disk) == Some(Layout(v))
    ensures Reopens(disk, v, width)
  {
    hide Open, Layout;
    OpenLayout(v, width);
  }

  /** An operation that rewrites image `v` into `w` through `atomicUpdate0`, started at step `i`. At every later
      step, before the next operation begins, whatever was killed or failed: reopening with the prefix size of the
      image that counts gives exactly `w` if the second rename succeeded and exactly `v` if not. */
  lemma ReopenAfterUpdate(file: FileSwap.File, states: seq<FileSwap.State>, actions: seq<FileSwap.Action>,
                          i: nat, j: nat, v: Image, w: Image, width: nat)
    requires FileSwap.Run(file, states, actions) && i < j < |states| && FileSwap.OneUpdate(actions, i, j)
    requires Valid(v, width) && Valid(w, width)
    requires states[i].current == Layout(v) && actions[i].next == Layout(w)
    ensures Reopens(states[j].disk, if FileSwap.Renamed(actions, i, j) then w else v, width)
  {
    hide Reopens, Valid, Layout;
    FileSwap.UpdateAllOrNothing(file, states, actions, i, j);
    LayoutReopens(states[j].disk, if FileSwap.Renamed(actions, i, j) then w else v, width);
  }

  /** The same for each operation: an insertion, an erasure, a change of capacity or of the prefix or suffix that is
      interrupted anywhere shows the contents from before it, or what the operation makes of them. */
  lemma CrashDuring(op: Operation, file: FileSwap.File, states: seq<FileSwap.State>, actions: seq<FileSwap.Action>,
                    i: nat, j: nat, v: Image, width: nat)
    requires FileSwap.Run(file, states, actions) && i < j < |states| && FileSwap.OneUpdate(actions, i, j)
    requires Valid(v, width) && Legal(op, v.size, width) && Valid(Result(op, v, width), width)
    requires states[i].current == Layout(v) && actions[i].next == Layout(Result(op, v, width))
    ensures exists w ::
      && Reopens(states[j].disk, w, width) && WellFormed(w, width)
      && View(w) == if FileSwap.Renamed(actions, i, j) then Meaning(op, View(v)) else View(v)
  {
    hide Reopens, Layout, Result;
    ResultMeans(op, v, width);
    ReopenAfterUpdate(file, states, actions, i, j, v, Result(op, v, width), width);
  }

  /** What the caller is doing at a step that begins an update or writes in place. */
  datatype Call = Update(op: Operation) | Direct(write: Write) | Nothing

  /** The operation of the update begun last. */
  function Pending(calls: seq<Call>, i: nat): Call
    requires i <= |calls|
  {
    if i == 0 then Nothing else if calls[i - 1].Update? then calls[i - 1] else Pending(calls, i - 1)
  }

  /** The call makes sense on `v`, and what it leaves fits a file of 64-bit size. */
  ghost predicate Possible(call: Call, v: Image, width: nat)
  {
    match call
    case Update(op) => WellFormed(v, width) && Legal(op, v.size, width) && Valid(Result(op, v, width), width)
    case Direct(write) => Fits(write, v, width)
    case Nothing => false
  }

  ghost function After(call: Call, v: Image, width: nat): Image
  {
    if !Possible(call, v, width) then v
    else match call
      case Update(op) => Result(op, v, width)
      case Direct(write) => Written(write, v)
  }

  /** The image after `i` steps when each update takes effect at its second rename, all at once. */
  ghost function ImageAt(v: Image, actions: seq<FileSwap.Action>, calls: seq<Call>, i: nat, width: nat): Image
    requires i <= |actions| == |calls|
  {
    if i == 0 then v
    else Next(ImageAt(v, actions, calls, i - 1, width), actions[i - 1], calls[i - 1], Pending(calls, i - 1), width)
  }

  ghost function Next(v: Image, a: FileSwap.Action, call: Call, pending: Call, width: nat): Image
  {
    if a.InPlace? then After(call, v, width)
    else if a == FileSwap.RenameToPath(true) then After(pending, v, width)
    else v
  }

  /** The run is one of vector calls: what an update builds and what an in-place write leaves are the layouts of
      the images of `calls`, each made from the image that counts at that step. */
  ghost predicate Calls(v: Image, actions: seq<FileSwap.Action>, calls: seq<Call>, width: nat)
  {
    && |calls| == |actions|
    && forall k :: 0 <= k < |actions| ==> Justified(ImageAt(v, actions, calls, k, width), actions[k], calls[k], width)
  }

  ghost predicate Justified(v: Image, a: FileSwap.Action, call: Call, width: nat)
  {
    match a
    case Begin(next) => call.Update? && Possible(call, v, width) && next == Layout(After(call, v, width))
    case InPlace(bytes) => call.Direct? && Possible(call, v, width) && bytes == Layout(After(call, v, width))
    case _ => call.Nothing?
  }

  /** Until the second rename of an update the file being built is the one it makes of the image that counts. */
  ghost predicate Building(s: FileSwap.State, pending: Call, v: Image, width: nat)
  {
    s.phase in {FileSwap.Started, FileSwap.Prepared, FileSwap.Writing, FileSwap.Flushed, FileSwap.Moved} ==>
      pending.Update? && Possible(pending, v, width) && s.next == Layout(After(pending, v, width))
  }

  ghost predicate Holds(s: FileSwap.State, pending: Call, v: Image, width: nat)
  {
    FileSwap.Inv(s) && Valid(v, width) && FileSwap.Committed(s) == Layout(v) && Building(s, pending, v, width)
  }

  lemma StepHolds(s: FileSwap.State, a: FileSwap.Action, call: Call, pending: Call, v: Image, width: nat)
    requires FileSwap.Enabled(s, a) && Holds(s, pending, v, width) && Justified(v, a, call, width)
    ensures Holds(FileSwap.Step(s, a), if call.Update? then call else pending, Next(v, a, call, pending, width), width)
  {
    hide Layout;
    FileSwap.StepKeeps(s, a);
    FileSwap.CommitPoint(s, a);
    AfterValid(call, v, width);
    AfterValid(pending, v, width);
    hide Valid, Possible, After;
  }

  lemma AfterValid(call: Call, v: Image, width: nat)
    requires Valid(v, width)
    ensures Valid(After(call, v, width), width)
  {
  }

  lemma {:induction false} CallsHold(file: FileSwap.File, states: seq<FileSwap.State>, actions: seq<FileSwap.Action>,
                                     v: Image, calls: seq<Call>, i: nat, width: nat)
    requires FileSwap.Run(file, states, actions) && Calls(v, actions, calls, width) && i < |states|
    requires Valid(v, width) && file == Layout(v)
    ensures Holds(states[i], Pending(calls, i), ImageAt(v, actions, calls, i, width), width)
  {
    hide Layout, Valid, Justified, Next, FileSwap.Inv, FileSwap.Step, FileSwap.Enabled;
    FileSwap.RunKeeps(file, states, actions, i);
    if i > 0 {
      CallsHold(file, states, actions, v, calls, i - 1, width);
      var before := ImageAt(v, actions, calls, i - 1, width);
      StepHolds(states[i - 1], actions[i - 1], calls[i - 1], Pending(calls, i - 1), before, width);
    }
  }

  /** Safety over whole runs: however many operations, in-place writes, failures, kills and reopenings there were,
      the file found on disk opens to exactly the image obtained by applying the writes and the operations whose
      second rename succeeded, in order, each as a whole. */
  lemma AlwaysReopens(file: FileSwap.File, states: seq<FileSwap.State>, actions: seq<FileSwap.Action>,
                      v: Image, calls: seq<Call>, i: nat, width: nat)
    requires FileSwap.Run(file, states, actions) && Calls(v, actions, calls, width) && i < |states|
    requires Valid(v, width) && file == Layout(v)
    ensures Reopens(states[i].disk, ImageAt(v, actions, calls, i, width), width)
  {
    hide Reopens, Layout, Valid, FileSwap.Inv;
    CallsHold(file, states, actions, v, calls, i, width);
    FileSwap.AlwaysRecoverable(file, states, actions, i);
    LayoutReopens(states[i].disk, ImageAt(v, actions, calls, i, width), width);
  }
}
