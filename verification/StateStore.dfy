/**
The durable state file: every write goes to a temporary file that is flushed to the disk and then
renamed over the current one. The file system may stop after any primitive step; what was not
flushed is then anything at all.
*/
module StateStore {
  import opened Sequences
  import opened Operations

  /** Reading undoes writing; the text of a state is not modelled. */
  datatype StateCodec = StateCodec(dump: OperationState -> seq<byte>, parse: seq<byte> -> Option<OperationState>)

  ghost predicate Faithful(codec: StateCodec) {
    forall s: OperationState :: codec.parse(codec.dump(s) + [NEWLINE]) == Some(s)
  }

  // ----- The disk -----

  datatype File = File(content: seq<byte>, flushed: bool)

  datatype Disk = Disk(current: Option<File>, temporary: Option<File>)

  datatype DiskStep = Truncate | Append(chunk: seq<byte>) | Flush | Rename

  function Do(d: Disk, step: DiskStep): Disk {
    match step
    case Truncate => d.(temporary := Some(File([], false)))
    case Append(chunk) =>
      if d.temporary.None? then d
      else d.(temporary := Some(File(d.temporary.value.content + chunk, false)))
    case Flush =>
      if d.temporary.None? then d else d.(temporary := Some(d.temporary.value.(flushed := true)))
    case Rename =>
      if d.temporary.None? then d else Disk(d.temporary, None)
  }

  function DoAll(d: Disk, steps: seq<DiskStep>): Disk {
    if steps == [] then d else Do(DoAll(d, steps[..|steps| - 1]), steps[|steps| - 1])
  }

  /** A file after a crash: what was flushed, or anything. */
  predicate Survives(before: Option<File>, after: Option<File>) {
    && before.Some? == after.Some?
    && (before.Some? && before.value.flushed ==> after.value.content == before.value.content)
    && (after.Some? ==> after.value.flushed)
  }

  predicate Crash(before: Disk, after: Disk) {
    Survives(before.current, after.current) && Survives(before.temporary, after.temporary)
  }

  // ----- Reading and writing states -----

  datatype Reading = Absent | Present(state: OperationState) | Corrupt

  function Read(codec: StateCodec, d: Disk): Reading {
    if d.current.None? then Absent
    else
      match codec.parse(d.current.value.content)
      case None => Corrupt
      case Some(state) => Present(state)
  }

  /** The current file is flushed and readable, or there is none. */
  predicate Sound(codec: StateCodec, d: Disk) {
    (d.current.Some? ==> d.current.value.flushed) && !Read(codec, d).Corrupt?
  }

  function Appends(chunks: seq<seq<byte>>): seq<DiskStep> {
    seq(|chunks|, i requires 0 <= i < |chunks| => Append(chunks[i]))
  }

  /** The primitive steps of one write whose text reaches the file in these pieces. */
  function WriteSteps(chunks: seq<seq<byte>>): seq<DiskStep> {
    [Truncate] + Appends(chunks) + [Flush, Rename]
  }

  predicate IsTextOf(codec: StateCodec, chunks: seq<seq<byte>>, state: OperationState) {
    Flatten(chunks) == codec.dump(state) + [NEWLINE]
  }

  lemma {:induction false} AppendsAccumulate(d: Disk, chunks: seq<seq<byte>>)
    ensures DoAll(d, [Truncate] + Appends(chunks)) == d.(temporary := Some(File(Flatten(chunks), false)))
  {
    var steps := [Truncate] + Appends(chunks);
    if chunks == [] {
      assert steps == [Truncate] && steps[..0] == [];
      assert DoAll(d, []) == d;
    } else {
      var n := |chunks| - 1;
      AppendsAccumulate(d, chunks[..n]);
      assert steps[..|steps| - 1] == [Truncate] + Appends(chunks[..n]);
      assert chunks == chunks[..n] + [chunks[n]];
      FlattenSnoc(chunks[..n], chunks[n]);
    }
  }

  /** Until the rename the current file is untouched; with it the new text is current and flushed. */
  lemma {:induction false} WriteProgress(d: Disk, chunks: seq<seq<byte>>, k: nat)
    requires k <= |WriteSteps(chunks)|
    ensures k < |WriteSteps(chunks)| ==> DoAll(d, WriteSteps(chunks)[..k]).current == d.current
    ensures k == |WriteSteps(chunks)| ==>
      DoAll(d, WriteSteps(chunks)[..k]) == Disk(Some(File(Flatten(chunks), true)), None)
  {
    var steps := WriteSteps(chunks);
    var n := |chunks| + 1;
    if k <= n {
      BeforeRename(d, steps, k);
    } else {
      AppendsAccumulate(d, chunks);
      assert steps[..n] == [Truncate] + Appends(chunks);
      assert steps[..n + 1][..n] == steps[..n] && steps[n] == Flush;
      assert DoAll(d, steps[..n + 1]) == Do(DoAll(d, steps[..n]), Flush);
      if k == n + 2 {
        assert steps[..k][..n + 1] == steps[..n + 1] && steps[n + 1] == Rename;
        assert DoAll(d, steps[..k]) == Do(DoAll(d, steps[..n + 1]), Rename);
      }
    }
  }

  lemma {:induction false} BeforeRename(d: Disk, steps: seq<DiskStep>, k: nat)
    requires k <= |steps| && Rename !in steps[..k]
    ensures DoAll(d, steps[..k]).current == d.current
  {
    if k > 0 {
      assert steps[..k][..k - 1] == steps[..k - 1];
      assert steps[k - 1] == steps[..k][k - 1];
      BeforeRename(d, steps, k - 1);
    }
  }

  /**
  A crash after any number of the primitive steps of a write leaves the whole old state or the whole
  new one, the new one exactly when the rename was done; either way the disk is sound again.
  */
  lemma CrashDuringWrite(codec: StateCodec, d: Disk, state: OperationState, chunks: seq<seq<byte>>, k: nat, after: Disk)
    requires Faithful(codec) && Sound(codec, d) && IsTextOf(codec, chunks, state)
    requires k <= |WriteSteps(chunks)| && Crash(DoAll(d, WriteSteps(chunks)[..k]), after)
    ensures Sound(codec, after)
    ensures Read(codec, after) ==
      if k < |WriteSteps(chunks)| then Read(codec, d) else Present(state)
  {
    WriteProgress(d, chunks, k);
  }

  // ----- Restarts -----

  /** The write that a startup makes, if any: nothing for no state and for a terminal one. */
  function StartupState(codec: StateCodec, d: Disk): Option<OperationState> {
    match Read(codec, d)
    case Present(state) =>
      if state.status.IsTerminal() then None else Some(MarkInterrupted(state))
    case _ => None
  }

  /** A startup that crashed after k of its steps. */
  predicate CrashedStartup(codec: StateCodec, d: Disk, chunks: seq<seq<byte>>, k: nat, after: Disk) {
    match StartupState(codec, d)
    case None => Crash(d, after)
    case Some(state) =>
      && IsTextOf(codec, chunks, state) && k <= |WriteSteps(chunks)|
      && Crash(DoAll(d, WriteSteps(chunks)[..k]), after)
  }

  predicate CompleteStartup(codec: StateCodec, d: Disk, chunks: seq<seq<byte>>, after: Disk) {
    match StartupState(codec, d)
    case None => after == d
    case Some(state) => IsTextOf(codec, chunks, state) && after == DoAll(d, WriteSteps(chunks))
  }

  datatype Attempt = Attempt(chunks: seq<seq<byte>>, steps: nat)

  /** The disks left by startups that all crashed, the first one found being disks[0]. */
  predicate CrashedStartups(codec: StateCodec, disks: seq<Disk>, attempts: seq<Attempt>) {
    && |disks| == |attempts| + 1
    && forall i :: 0 <= i < |attempts| ==>
        CrashedStartup(codec, disks[i], attempts[i].chunks, attempts[i].steps, disks[i + 1])
  }

  /** What a complete startup turns a reading into. */
  function Recovered(r: Reading): Reading {
    match r case Present(state) => Present(MarkInterrupted(state)) case _ => r
  }

  function StateOf(r: Reading): Option<OperationState> {
    match r case Present(state) => Some(state) case _ => None
  }

  lemma RecoveredIs(r: Reading)
    ensures Restarted(StateOf(r), StateOf(Recovered(r)))
  {
  }

  lemma OneStartup(codec: StateCodec, d: Disk, chunks: seq<seq<byte>>, k: nat, after: Disk)
    requires Faithful(codec) && Sound(codec, d) && CrashedStartup(codec, d, chunks, k, after)
    ensures Sound(codec, after) && Recovered(Read(codec, after)) == Recovered(Read(codec, d))
  {
    match StartupState(codec, d)
    case None =>
    case Some(state) => CrashDuringWrite(codec, d, state, chunks, k, after);
  }

  /**
  After any number of crashed startups one complete startup leaves no state or one that is not active: the
  state found first, with nothing but status and message changed if it was active, however often the
  interruption was attempted.
  */
  lemma {:induction false} Recovery(codec: StateCodec, disks: seq<Disk>, attempts: seq<Attempt>,
                                    chunks: seq<seq<byte>>, final: Disk)
    requires Faithful(codec) && CrashedStartups(codec, disks, attempts) && Sound(codec, disks[0])
    requires CompleteStartup(codec, disks[|disks| - 1], chunks, final)
    ensures Sound(codec, final)
    ensures Read(codec, final) == Recovered(Read(codec, disks[0]))
    ensures Restarted(StateOf(Read(codec, disks[0])), StateOf(Read(codec, final)))
    ensures Read(codec, final).Absent? || !IsActive(Read(codec, final).state)
    decreases |attempts|
  {
    RecoveredIs(Read(codec, disks[0]));
    if attempts == [] {
      var d := disks[0];
      match StartupState(codec, d) {
        case None =>
        case Some(state) =>
          WriteProgress(d, chunks, |WriteSteps(chunks)|);
          assert WriteSteps(chunks)[..|WriteSteps(chunks)|] == WriteSteps(chunks);
      }
    } else {
      OneStartup(codec, disks[0], attempts[0].chunks, attempts[0].steps, disks[1]);
      forall i | 0 <= i < |attempts[1..]|
        ensures CrashedStartup(codec, disks[1..][i], attempts[1..][i].chunks, attempts[1..][i].steps, disks[1..][i + 1])
      {
        assert attempts[1..][i] == attempts[i + 1] && disks[1..][i] == disks[i + 1];
        assert disks[1..][i + 1] == disks[i + 2];
      }
      Recovery(codec, disks[1..], attempts[1..], chunks, final);
    }
  }

  // ----- Any number of writes -----

  /** The primitive steps of several writes, one after the other. */
  function AllSteps(pieces: seq<seq<seq<byte>>>): seq<DiskStep> {
    if pieces == [] then [] else AllSteps(pieces[..|pieces| - 1]) + WriteSteps(pieces[|pieces| - 1])
  }

  /** These pieces are the texts of these states. */
  predicate AreTextsOf(codec: StateCodec, pieces: seq<seq<seq<byte>>>, states: seq<OperationState>) {
    |pieces| == |states| && forall i :: 0 <= i < |states| ==> IsTextOf(codec, pieces[i], states[i])
  }

  function Renames(steps: seq<DiskStep>): nat {
    if steps == [] then 0 else Renames(steps[..|steps| - 1]) + if steps[|steps| - 1].Rename? then 1 else 0
  }

  lemma {:induction false} DoAllConcat(d: Disk, a: seq<DiskStep>, b: seq<DiskStep>)
    ensures DoAll(d, a + b) == DoAll(DoAll(d, a), b)
  {
    if b == [] {
      assert a + b == a;
    } else {
      assert (a + b)[..|a + b| - 1] == a + b[..|b| - 1];
      DoAllConcat(d, a, b[..|b| - 1]);
    }
  }

  lemma {:induction false} RenamesConcat(a: seq<DiskStep>, b: seq<DiskStep>)
    ensures Renames(a + b) == Renames(a) + Renames(b)
  {
    if b == [] {
      assert a + b == a;
    } else {
      assert (a + b)[..|a + b| - 1] == a + b[..|b| - 1];
      RenamesConcat(a, b[..|b| - 1]);
    }
  }

  lemma {:induction false} NoRenames(steps: seq<DiskStep>)
    requires Rename !in steps
    ensures Renames(steps) == 0
  {
    if steps != [] {
      NoRenames(steps[..|steps| - 1]);
    }
  }

  /** A write renames once, with its last step. */
  lemma OneRename(chunks: seq<seq<byte>>, k: nat)
    requires k <= |WriteSteps(chunks)|
    ensures Renames(WriteSteps(chunks)[..k]) == if k < |WriteSteps(chunks)| then 0 else 1
  {
    var steps := WriteSteps(chunks);
    if k < |steps| {
      NoRenames(steps[..k]);
    } else {
      NoRenames(steps[..k - 1]);
      assert steps[..k][..k - 1] == steps[..k - 1] && steps[..k][k - 1] == Rename;
    }
  }

  /** What is read after this many of the writes. */
  function ReadAfter(codec: StateCodec, d: Disk, states: seq<OperationState>, n: nat): Reading
    requires n <= |states|
  {
    if n == 0 then Read(codec, d) else Present(states[n - 1])
  }

  lemma {:induction false} CompletedWrites(
    codec: StateCodec, d: Disk, states: seq<OperationState>, pieces: seq<seq<seq<byte>>>
  )
    requires Faithful(codec) && Sound(codec, d) && AreTextsOf(codec, pieces, states)
    ensures var after := DoAll(d, AllSteps(pieces));
      Sound(codec, after) && Read(codec, after) == ReadAfter(codec, d, states, |states|)
    ensures Renames(AllSteps(pieces)) == |states|
  {
    hide WriteSteps;
    if pieces != [] {
      var n := |pieces| - 1;
      CompletedWrites(codec, d, states[..n], pieces[..n]);
      var before, last := AllSteps(pieces[..n]), WriteSteps(pieces[n]);
      DoAllConcat(d, before, last);
      RenamesConcat(before, last);
      assert last[..|last|] == last;
      WriteProgress(DoAll(d, before), pieces[n], |last|);
      OneRename(pieces[n], |last|);
    }
  }

  /**
  A crash after any primitive step of any number of writes leaves whole the last state whose rename was
  done, or the disk that was found when there is none.
  */
  lemma {:induction false} CrashDuringWrites(
    codec: StateCodec, d: Disk, states: seq<OperationState>, pieces: seq<seq<seq<byte>>>, k: nat, after: Disk
  )
    requires Faithful(codec) && Sound(codec, d) && AreTextsOf(codec, pieces, states)
    requires k <= |AllSteps(pieces)| && Crash(DoAll(d, AllSteps(pieces)[..k]), after)
    ensures var n := Renames(AllSteps(pieces)[..k]);
      n <= |states| && Sound(codec, after) && Read(codec, after) == ReadAfter(codec, d, states, n)
  {
    hide WriteSteps, Crash, Sound;
    if pieces == [] {
      NothingDone(codec, d, after);
    } else {
      var n := |pieces| - 1;
      var before, last := AllSteps(pieces[..n]), WriteSteps(pieces[n]);
      if k <= |before| {
        assert AllSteps(pieces)[..k] == before[..k];
        CrashDuringWrites(codec, d, states[..n], pieces[..n], k, after);
      } else {
        var j := k - |before|;
        assert AllSteps(pieces)[..k] == before + last[..j];
        DoAllConcat(d, before, last[..j]);
        RenamesConcat(before, last[..j]);
        CompletedWrites(codec, d, states[..n], pieces[..n]);
        OneRename(pieces[n], j);
        CrashDuringWrite(codec, DoAll(d, before), states[n], pieces[n], j, after);
      }
    }
  }

  lemma NothingDone(codec: StateCodec, d: Disk, after: Disk)
    requires Sound(codec, d) && Crash(d, after)
    ensures Sound(codec, after) && Read(codec, after) == Read(codec, d)
  {
  }

  // ----- The store itself -----

  /** The directory of the store: its two files, changed by the primitive steps only, and those steps. */
  class Directory {
    var current: Option<File>
    var temporary: Option<File>
    ghost const found: Disk
    ghost var trace: seq<DiskStep>

    function OnDisk(): Disk
      reads this
    {
      Disk(current, temporary)
    }

    /** The disk is what the steps made of the one that was found. */
    ghost predicate Valid()
      reads this
    {
      OnDisk() == DoAll(found, trace)
    }

    constructor (found: Disk)
      ensures Valid() && OnDisk() == found && this.found == found && trace == []
    {
      current, temporary := found.current, found.temporary;
      this.found, trace := found, [];
    }

    method Truncate()
      requires Valid()
      modifies this
      ensures Valid() && OnDisk() == Do(old(OnDisk()), DiskStep.Truncate)
      ensures trace == old(trace) + [DiskStep.Truncate]
    {
      temporary := Some(File([], false));
      trace := trace + [DiskStep.Truncate];
    }

    method Append(chunk: seq<byte>)
      requires Valid()
      modifies this
      ensures Valid() && OnDisk() == Do(old(OnDisk()), DiskStep.Append(chunk))
      ensures trace == old(trace) + [DiskStep.Append(chunk)]
    {
      if temporary.Some? {
        temporary := Some(File(temporary.value.content + chunk, false));
      }
      trace := trace + [DiskStep.Append(chunk)];
    }

    method Flush()
      requires Valid()
      modifies this
      ensures Valid() && OnDisk() == Do(old(OnDisk()), DiskStep.Flush)
      ensures trace == old(trace) + [DiskStep.Flush]
    {
      if temporary.Some? {
        temporary := Some(temporary.value.(flushed := true));
      }
      trace := trace + [DiskStep.Flush];
    }

    method Rename()
      requires Valid()
      modifies this
      ensures Valid() && OnDisk() == Do(old(OnDisk()), DiskStep.Rename)
      ensures trace == old(trace) + [DiskStep.Rename]
    {
      if temporary.Some? {
        current, temporary := temporary, None;
      }
      trace := trace + [DiskStep.Rename];
    }
  }

  class StateStore {
    const codec: StateCodec
    const directory: Directory
    ghost var written: seq<OperationState>
    ghost var pieces: seq<seq<seq<byte>>>

    /** All that ever happened to the disk are the steps of the writes, in order. */
    ghost predicate Valid()
      reads this, directory
    {
      && Faithful(codec) && directory.Valid() && Sound(codec, directory.found)
      && AreTextsOf(codec, pieces, written) && directory.trace == AllSteps(pieces)
    }

    /** What reading the store gives. */
    function Stored(): Option<OperationState>
      reads this, directory
    {
      match Read(codec, directory.OnDisk()) case Present(state) => Some(state) case _ => None
    }

    /** The service comes up on whatever disk an earlier one left. */
    constructor (codec: StateCodec, found: Disk)
      requires Faithful(codec) && Sound(codec, found)
      ensures Valid() && directory.OnDisk() == directory.found == found && this.codec == codec
      ensures fresh(directory) && written == []
    {
      this.codec := codec;
      directory := new Directory(found);
      written, pieces := [], [];
    }

    /** Write the text piece by piece to the temporary file, flush it and rename it. */
    method Write(state: OperationState)
      requires Valid()
      modifies this, directory
      ensures Valid() && Stored() == Some(state)
      ensures written == old(written) + [state] && |pieces| == |old(pieces)| + 1 && old(pieces) <= pieces
      ensures directory.trace == old(directory.trace) + WriteSteps(pieces[|pieces| - 1])
    {
      hide DoAll, AllSteps, WriteSteps, Directory.Valid, Faithful;
      var text := codec.dump(state) + [NEWLINE];
      ghost var chunks := WriteText(text);
      WrittenSnoc(codec, pieces, written, chunks, state);
      written, pieces := written + [state], pieces + [chunks];
      StoredIsLast(this);
    }

    /** The primitive steps that bring one text to the disk, in chunks of any size. */
    method WriteText(text: seq<byte>) returns (ghost chunks: seq<seq<byte>>)
      requires directory.Valid()
      modifies directory
      ensures directory.Valid() && Flatten(chunks) == text
      ensures directory.trace == old(directory.trace) + WriteSteps(chunks)
    {
      hide DoAll, Directory.Valid;
      ghost var start := directory.trace;
      directory.Truncate();
      chunks := [];
      FlattenNil<byte>();
      var count := 0;
      while count < |text|
        invariant 0 <= count <= |text| && Flatten(chunks) == text[..count]
        invariant directory.Valid() && directory.trace == start + ([Truncate] + Appends(chunks))
        decreases |text| - count
      {
        var size: nat :| 1 <= size <= |text| - count;
        var chunk := text[count..count + size];
        directory.Append(chunk);
        FlattenSnoc(chunks, chunk);
        assert Appends(chunks + [chunk]) == Appends(chunks) + [DiskStep.Append(chunk)];
        chunks := chunks + [chunk];
        assert text[..count] + chunk == text[..count + size];
        count := count + size;
      }
      assert text[..count] == text;
      directory.Flush();
      directory.Rename();
    }

    /** At startup an active state becomes an interrupted one; anything else stays. */
    method MarkStoredInterrupted() returns (r: Option<OperationState>)
      requires Valid()
      modifies this, directory
      ensures Valid() && r == Stored()
      ensures Read(codec, directory.OnDisk()) == Recovered(old(Read(codec, directory.OnDisk())))
      ensures Restarted(old(Stored()), r)
      ensures if old(Stored()).None? || old(Stored()).value.status.IsTerminal()
        then unchanged(this) && unchanged(directory) else written == old(written) + [r.value]
    {
      hide AllSteps;
      StoredIsRead(this);
      RecoveredIs(Read(codec, directory.OnDisk()));
      r := Stored();
      if r.None? || r.value.status.IsTerminal() {
        return;
      }
      r := Some(MarkInterrupted(r.value));
      Write(r.value);
      StoredIsRead(this);
    }
  }

  lemma WrittenSnoc(
    codec: StateCodec, pieces: seq<seq<seq<byte>>>, written: seq<OperationState>, chunks: seq<seq<byte>>,
    state: OperationState
  )
    requires AreTextsOf(codec, pieces, written) && IsTextOf(codec, chunks, state)
    ensures AreTextsOf(codec, pieces + [chunks], written + [state])
    ensures AllSteps(pieces + [chunks]) == AllSteps(pieces) + WriteSteps(chunks)
  {
    assert (pieces + [chunks])[..|pieces|] == pieces;
  }

  lemma StoredIsLast(store: StateStore)
    requires store.Valid() && store.written != []
    ensures Read(store.codec, store.directory.OnDisk()) == Present(store.written[|store.written| - 1])
    ensures store.Stored() == Some(store.written[|store.written| - 1])
  {
    hide DoAll, AllSteps, Read;
    CompletedWrites(store.codec, store.directory.found, store.written, store.pieces);
  }

  lemma StoredIsRead(store: StateStore)
    requires store.Valid()
    ensures !Read(store.codec, store.directory.OnDisk()).Corrupt?
  {
    hide DoAll, AllSteps, Read;
    CompletedWrites(store.codec, store.directory.found, store.written, store.pieces);
  }

  /** Whenever the process dies, the store that is found next holds the last state renamed until then. */
  lemma CrashAnytime(store: StateStore, k: nat, after: Disk)
    requires store.Valid() && k <= |store.directory.trace|
    requires Crash(DoAll(store.directory.found, store.directory.trace[..k]), after)
    ensures var n := Renames(store.directory.trace[..k]);
      && n <= |store.written| && Sound(store.codec, after)
      && Read(store.codec, after) == ReadAfter(store.codec, store.directory.found, store.written, n)
  {
    hide DoAll, AllSteps, Read, Crash;
    CrashDuringWrites(store.codec, store.directory.found, store.written, store.pieces, k, after);
  }
}
