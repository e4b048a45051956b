/** Histories of the store: all the states that the disk goes through in a run of storing
    operations, each of which a crash can leave behind. */
module StorageRuns {
  import opened BlobStore
  import opened Digest
  import opened FabricksModules
  import opened ImageIndex
  import opened Wrappers

  // ---------------------------------------------------------------- histories

  /** From `from` on, finished blobs are never changed or lost. */
  ghost predicate Growing(points: seq<Disk>, from: nat) {
    forall i, j :: from <= i <= j < |points| ==> Kept(points[i].blobs, points[j].blobs)
  }

  /** From `from` on, all that happens is that blobs of `added` are stored. */
  ghost predicate Growth(f: Format, points: seq<Disk>, from: nat, added: set<Bytes>) {
    && from < |points|
    && Growing(points, from)
    && forall j :: from <= j < |points| ==> Grown(f, points[from], points[j], added)
  }

  lemma KeptTransitive(a: map<string, Bytes>, b: map<string, Bytes>, c: map<string, Bytes>)
    requires Kept(a, b) && Kept(b, c)
    ensures Kept(a, c)
  {
  }

  lemma JoinGrowing(points: seq<Disk>, more: seq<Disk>, from: nat)
    requires from < |points| && points <= more
    requires Growing(points, from) && Growing(more, |points| - 1)
    ensures Growing(more, from)
  {
    var mid := |points| - 1;
    forall i, j | from <= i <= j < |more|
      ensures Kept(more[i].blobs, more[j].blobs)
    {
      if i <= mid <= j {
        KeptTransitive(points[i].blobs, points[mid].blobs, more[j].blobs);
      } else if j < mid {
        assert Kept(points[i].blobs, points[j].blobs);
      }
    }
  }

  lemma JoinGrowth(f: Format, points: seq<Disk>, more: seq<Disk>, from: nat, x: set<Bytes>, y: set<Bytes>)
    requires points <= more
    requires Growth(f, points, from, x) && Growth(f, more, |points| - 1, y)
    ensures Growth(f, more, from, x + y)
  {
    JoinGrowing(points, more, from);
    var mid := |points| - 1;
    forall j | from <= j < |more|
      ensures Grown(f, more[from], more[j], x + y)
    {
      if j < mid {
        assert Grown(f, points[from], points[j], x);
      } else {
        GrownTransitive(f, points[from], points[mid], more[j], x, y);
      }
    }
  }

  lemma NoGrowth(f: Format, points: seq<Disk>)
    requires points != []
    ensures Growth(f, points, |points| - 1, {})
  {
  }

  /** A write to a temporary file. */
  lemma GrowthOfWrite(f: Format, points: seq<Disk>, from: nat, name: string, data: Bytes, next: Disk)
    requires IsTmp(name) && Growth(f, points, from, {})
    requires next == Disk(points[|points| - 1].blobs[name := data], points[|points| - 1].index)
    ensures Growth(f, points + [next], from, {})
  {
    var none: set<Bytes> := {};
    GrowthOfStep(f, points, next, none);
    JoinGrowth(f, points, points + [next], from, none, none);
    assert none + none == none;
  }

  lemma GrowthOfStep(f: Format, points: seq<Disk>, next: Disk, added: set<Bytes>)
    requires points != [] && Grown(f, points[|points| - 1], next, added)
    ensures Growth(f, points + [next], |points| - 1, added)
  {
  }

  /** Moreover, afterwards all of `added` is there. */
  ghost predicate Grew(f: Format, points: seq<Disk>, from: nat, added: set<Bytes>) {
    Growth(f, points, from, added) && Holds(f, points[|points| - 1].blobs, added)
  }

  lemma NothingGrew(f: Format, points: seq<Disk>)
    requires points != []
    ensures Grew(f, points, |points| - 1, {})
  {
  }

  lemma JoinGrew(f: Format, points: seq<Disk>, more: seq<Disk>, from: nat, x: set<Bytes>, y: set<Bytes>)
    requires HexHash(f.hash) && points <= more
    requires Grew(f, points, from, x) && Grew(f, more, |points| - 1, y)
    ensures Grew(f, more, from, x + y)
  {
    JoinGrowth(f, points, more, from, x, y);
    HoldsStays(f, points[|points| - 1].blobs, more[|more| - 1].blobs, x);
  }

  /** How a module is stored: its blobs, and then, if the index can be read, the index,
      which is torn for as long as it takes to write it. */
  ghost predicate StoredAlong(f: Format, points: seq<Disk>, from: nat, parts: Parts, reference: string) {
    var n := |points| - 2;
    && from < |points|
    && if points[from].index.Index? then
         && from < n
         && Growth(f, points[..n], from, parts.Contents(f))
         && points[n] == Disk(points[n - 1].blobs, Corrupt)
         && points[n + 1].blobs == points[n - 1].blobs
         && Stored(f, points[from], points[n + 1], parts, reference)
       else
         Grew(f, points, from, parts.Contents(f))
  }

  // ---------------------------------------------------------------- whole runs

  datatype Command =
    | PutBlob(data: Bytes)
    | PutModule(config: Fabrickfile, layers: seq<ModuleLayer>, custom: Annotations, reference: string)
  {
    /** What the command stores of a module whose configuration can be serialized. */
    function Module(f: Format): Option<Parts> {
      if PutBlob? || f.encodeConfig(config).None? then None
      else Some(Parts(f.encodeConfig(config).value, layers, BuildAnnotations(config, custom)))
    }

    ghost function Contents(f: Format): set<Bytes> {
      if PutBlob? then {data} else if Module(f).Some? then Module(f).value.Contents(f) else {}
    }
  }

  ghost function AllContents(f: Format, commands: seq<Command>): set<Bytes> {
    set command, c | command in commands && c in command.Contents(f) :: c
  }

  /** Nothing else in the universe has the hash of a manifest that the commands store. */
  ghost predicate SoleManifests(f: Format, universe: set<Bytes>, commands: seq<Command>) {
    forall command :: command in commands && command.Module(f).Some? ==>
      Sole(f.hash, universe, command.Module(f).value.ManifestBytes(f))
  }

  ghost predicate SoleManifest(f: Format, present: set<Bytes>, command: Command) {
    command.Module(f).Some? ==>
      Sole(f.hash, present + command.Contents(f), command.Module(f).value.ManifestBytes(f))
  }

  /** The index after a run. An index that cannot be read stays as it is. */
  ghost function Indexed(f: Format, index: IndexFile, commands: seq<Command>): IndexFile {
    if commands == [] then index
    else
      var last, before := commands[|commands| - 1], Indexed(f, index, commands[..|commands| - 1]);
      if before.Index? && last.Module(f).Some? then
        var manifest := last.Module(f).value.ManifestBytes(f);
        Index(Some(Upsert(before.Entries(), last.reference, ComputeDigest(f.hash, manifest), Saturate(|manifest|))))
      else before
  }

  ghost predicate AllReadable(f: Format, blobs: map<string, Bytes>, contents: set<Bytes>) {
    forall c :: c in contents ==> Readable(f, blobs, ComputeDigest(f.hash, c))
  }

  /** Every state is sound, and holds nothing but what was there at first and `added`. */
  ghost predicate AllSound(f: Format, points: seq<Disk>, from: nat, added: set<Bytes>)
    requires from < |points|
  {
    forall j :: from <= j < |points| ==>
      Sound(f, points[j]) && FinishedContents(points[j]) <= FinishedContents(points[from]) + added
  }

  ghost predicate AllConsistent(f: Format, points: seq<Disk>, from: nat) {
    forall j :: from <= j < |points| ==> Consistent(f, points[j])
  }

  /** What holds, whatever the hash, of the crash points that one command went through. The
      index is torn in the last but one at most, and then all blobs are in place. */
  ghost predicate Step(f: Format, points: seq<Disk>, from: nat, command: Command) {
    && from < |points| && Growing(points, from)
    && AllSound(f, points, from, command.Contents(f))
    && AllReadable(f, points[|points| - 1].blobs, command.Contents(f))
    && points[|points| - 1].index == Indexed(f, points[from].index, [command])
    && (forall j :: from <= j < |points| - 1 ==>
          || points[j].index == points[from].index
          || (command.Module(f).Some? && j == |points| - 2
              && points[j] == Disk(points[|points| - 1].blobs, Corrupt)))
  }

  /** The command took the disk from one state of the history to a later one. */
  ghost predicate StepAt(f: Format, points: seq<Disk>, begin: nat, end: nat, command: Command) {
    begin <= end < |points| && Step(f, points[..end + 1], begin, command)
  }

  /** The state in which the disk was when `k` commands were complete. */
  ghost function Begin(from: nat, marks: seq<nat>, k: nat): nat
    requires k <= |marks|
  {
    if k == 0 then from else marks[k - 1]
  }

  /** One command after the other went through the crash points: command `k` from state
      `Begin(k)` to state `marks[k]`, and the last one to the last state. */
  ghost predicate Timeline(f: Format, points: seq<Disk>, from: nat, commands: seq<Command>, marks: seq<nat>) {
    && |marks| == |commands|
    && Begin(from, marks, |marks|) == |points| - 1
    && forall k :: 0 <= k < |marks| ==> StepAt(f, points, Begin(from, marks, k), marks[k], commands[k])
  }

  /** In state `j`, `k` commands were complete and the next one was not. */
  ghost predicate During(points: seq<Disk>, from: nat, marks: seq<nat>, k: nat, j: nat) {
    && k <= |marks| && Begin(from, marks, k) <= j < |points|
    && (k < |marks| ==> j < marks[k])
  }

  /** In every state the index is that of the commands complete by then, or torn just before
      the next command is complete. */
  ghost predicate IndexInTime(f: Format, points: seq<Disk>, from: nat, commands: seq<Command>, marks: seq<nat>)
    requires from < |points| && |marks| == |commands|
  {
    forall k: nat, j: nat :: During(points, from, marks, k, j) ==>
      || points[j].index == Indexed(f, points[from].index, commands[..k])
      || (points[j].index == Corrupt && k < |marks| && j == marks[k] - 1 && commands[k].Module(f).Some?)
  }

  /** From the state in which a command was complete, all it has stored can be read. */
  ghost predicate ReadableInTime(f: Format, points: seq<Disk>, commands: seq<Command>, marks: seq<nat>)
    requires |marks| == |commands|
  {
    forall k, j :: 0 <= k < |marks| && marks[k] <= j < |points| ==>
      AllReadable(f, points[j].blobs, commands[k].Contents(f))
  }

  /** What holds, whatever the hash, of the crash points that a run of commands went through. */
  ghost predicate Guarded(f: Format, points: seq<Disk>, from: nat, commands: seq<Command>, marks: seq<nat>) {
    && from < |points| && Growing(points, from)
    && AllSound(f, points, from, AllContents(f, commands))
    && Timeline(f, points, from, commands, marks)
  }

  lemma GuardedInitially(f: Format, points: seq<Disk>)
    requires points != [] && Sound(f, points[|points| - 1])
    ensures Guarded(f, points, |points| - 1, [], [])
    ensures Consistent(f, points[|points| - 1]) ==> AllConsistent(f, points, |points| - 1)
  {
  }

  lemma GuardedNow(f: Format, points: seq<Disk>, from: nat, commands: seq<Command>, marks: seq<nat>)
    requires Guarded(f, points, from, commands, marks)
    ensures from < |points| && Sound(f, points[|points| - 1]) && Growing(points, from)
    ensures AllSound(f, points, from, AllContents(f, commands)) && Timeline(f, points, from, commands, marks)
  {
  }

  lemma GrowthStaysInUniverse(f: Format, before: Disk, after: Disk, added: set<Bytes>)
    requires Grown(f, before, Disk(after.blobs, before.index), added)
    ensures FinishedContents(after) <= FinishedContents(before) + added
  {
  }

  lemma GrowthIsSound(f: Format, points: seq<Disk>, from: nat, added: set<Bytes>)
    requires HexHash(f.hash) && Growth(f, points, from, added) && Sound(f, points[from])
    ensures AllSound(f, points, from, added)
  {
    forall j | from <= j < |points|
      ensures Sound(f, points[j]) && FinishedContents(points[j]) <= FinishedContents(points[from]) + added
    {
      GrowthIsConsistent(f, points[from], points[j], added);
      assert points[j] == Disk(points[j].blobs, points[from].index);
      GrowthStaysInUniverse(f, points[from], points[j], added);
    }
  }

  lemma HoldsIsReadable(f: Format, disk: Disk, contents: set<Bytes>)
    requires HexHash(f.hash) && Sound(f, disk) && Holds(f, disk.blobs, contents)
    ensures AllReadable(f, disk.blobs, contents)
  {
    forall c | c in contents
      ensures Readable(f, disk.blobs, ComputeDigest(f.hash, c))
    {
      NamedIsReadable(f, disk.blobs, c);
    }
  }

  lemma ReadableThroughout(f: Format, points: seq<Disk>, from: nat, contents: set<Bytes>)
    requires HexHash(f.hash) && from < |points| && Growing(points, from)
    requires AllReadable(f, points[from].blobs, contents)
    ensures forall j :: from <= j < |points| ==> AllReadable(f, points[j].blobs, contents)
  {
    forall j, c | from <= j < |points| && c in contents
      ensures Readable(f, points[j].blobs, ComputeDigest(f.hash, c))
    {
      ReadableStays(f, points[from].blobs, points[j].blobs, ComputeDigest(f.hash, c));
    }
  }

  lemma ModuleIsSound(f: Format, points: seq<Disk>, from: nat, parts: Parts, reference: string)
    requires HexHash(f.hash) && from < |points| && Sound(f, points[from])
    requires StoredAlong(f, points, from, parts, reference)
    ensures Growing(points, from)
    ensures AllSound(f, points, from, parts.Contents(f))
    ensures AllReadable(f, points[|points| - 1].blobs, parts.Contents(f))
  {
    hide Sound, Grown, Kept, Readable, FinishedContents;
    var n := |points| - 2;
    if points[from].index.Index? {
      GrowthIsSound(f, points[..n], from, parts.Contents(f));
      StoredIsSound(f, points[from], points[n + 1], parts, reference);
      assert Sound(f, points[..n][n - 1]);
      TornIsConsistent(f, points[n - 1]);
      TornGrowing(points, from);
      GrowthStaysInUniverse(f, points[from], points[n], parts.Contents(f));
      GrowthStaysInUniverse(f, points[from], points[n + 1], parts.Contents(f));
    } else {
      GrowthIsSound(f, points, from, parts.Contents(f));
    }
    HoldsIsReadable(f, points[n + 1], parts.Contents(f));
  }

  lemma TornGrowing(points: seq<Disk>, from: nat)
    requires from < |points| - 2 && Growing(points[..|points| - 2], from)
    requires points[|points| - 2].blobs == points[|points| - 3].blobs == points[|points| - 1].blobs
    ensures Growing(points, from)
  {
    var n := |points| - 2;
    forall i, j | from <= i <= j < |points|
      ensures Kept(points[i].blobs, points[j].blobs)
    {
      assert Kept(points[..n][if i < n then i else n - 1].blobs, points[..n][if j < n then j else n - 1].blobs);
    }
  }

  lemma BlobStep(f: Format, points: seq<Disk>, from: nat, command: Command)
    requires HexHash(f.hash) && command.PutBlob? && from < |points| && Sound(f, points[from])
    requires Grew(f, points, from, {command.data})
    ensures Step(f, points, from, command)
    ensures Consistent(f, points[from]) ==> AllConsistent(f, points, from)
  {
    assert [command][..0] == [];
    GrowthIsSound(f, points, from, {command.data});
    HoldsIsReadable(f, points[|points| - 1], {command.data});
    if Consistent(f, points[from]) {
      GrowthConsistent(f, points, from, {command.data});
    }
  }

  lemma IdleStep(f: Format, points: seq<Disk>, from: nat, command: Command)
    requires command.PutModule? && command.Module(f).None? && |points| == from + 1 && Sound(f, points[from])
    ensures Step(f, points, from, command)
    ensures Consistent(f, points[from]) ==> AllConsistent(f, points, from)
  {
    assert [command][..0] == [];
  }

  lemma ModuleStep(f: Format, points: seq<Disk>, from: nat, command: Command)
    requires HexHash(f.hash) && command.Module(f).Some? && from < |points| && Sound(f, points[from])
    requires StoredAlong(f, points, from, command.Module(f).value, command.reference)
    ensures Step(f, points, from, command)
    ensures f.Valid() && Consistent(f, points[from]) && SoleManifest(f, FinishedContents(points[from]), command)
            ==> AllConsistent(f, points, from)
  {
    var parts := command.Module(f).value;
    ModuleIsSound(f, points, from, parts, command.reference);
    ModuleIndex(f, points, from, command);
    if f.Valid() && Consistent(f, points[from]) && SoleManifest(f, FinishedContents(points[from]), command) {
      ModuleIsConsistent(f, points, from, parts, command.reference);
    }
  }

  lemma ModuleIndex(f: Format, points: seq<Disk>, from: nat, command: Command)
    requires command.Module(f).Some? && StoredAlong(f, points, from, command.Module(f).value, command.reference)
    ensures points[|points| - 1].index == Indexed(f, points[from].index, [command])
    ensures forall j :: from <= j < |points| - 1 ==>
              || points[j].index == points[from].index
              || (j == |points| - 2 && points[j] == Disk(points[|points| - 1].blobs, Corrupt))
  {
    assert [command][..0] == [];
    if points[from].index.Index? {
      var n := |points| - 2;
      forall j | from <= j < n
        ensures points[j].index == points[from].index
      {
        assert Grown(f, points[..n][from], points[..n][j], command.Contents(f));
      }
    }
  }

  lemma IndexedStep(f: Format, index: IndexFile, commands: seq<Command>, command: Command)
    ensures Indexed(f, index, commands + [command]) == Indexed(f, Indexed(f, index, commands), [command])
  {
    assert (commands + [command])[..|commands|] == commands && [command][..0] == [];
  }

  lemma BeginAppend(from: nat, marks: seq<nat>, mark: nat, k: nat)
    requires k <= |marks|
    ensures Begin(from, marks + [mark], k) == Begin(from, marks, k)
    ensures Begin(from, marks + [mark], |marks| + 1) == mark
  {
  }

  lemma StepAtLater(f: Format, points: seq<Disk>, more: seq<Disk>, begin: nat, end: nat, command: Command)
    requires points <= more && StepAt(f, points, begin, end, command)
    ensures StepAt(f, more, begin, end, command)
  {
    hide Step;
    assert more[..end + 1] == points[..end + 1];
  }

  lemma StepAtNow(f: Format, points: seq<Disk>, begin: nat, command: Command)
    requires Step(f, points, begin, command)
    ensures StepAt(f, points, begin, |points| - 1, command)
  {
    hide Growing, AllSound, AllReadable, Indexed;
    assert points[..|points| - 1 + 1] == points;
  }

  lemma StepAtFacts(f: Format, points: seq<Disk>, begin: nat, end: nat, command: Command)
    requires StepAt(f, points, begin, end, command)
    ensures begin <= end < |points|
    ensures points[end].index == Indexed(f, points[begin].index, [command])
    ensures forall j :: begin <= j < end ==>
              || points[j].index == points[begin].index
              || (points[j].index == Corrupt && j == end - 1 && command.Module(f).Some?)
    ensures AllReadable(f, points[end].blobs, command.Contents(f))
  {
    hide Growing, AllSound, AllReadable, Indexed;
  }

  lemma StepParts(f: Format, points: seq<Disk>, from: nat, command: Command)
    requires Step(f, points, from, command)
    ensures from < |points| && Growing(points, from) && AllSound(f, points, from, command.Contents(f))
  {
  }

  lemma TimelineStep(f: Format, points: seq<Disk>, more: seq<Disk>, from: nat, commands: seq<Command>,
                     command: Command, marks: seq<nat>)
    requires points != [] && points <= more && more != []
    requires Timeline(f, points, from, commands, marks) && Step(f, more, |points| - 1, command)
    ensures Timeline(f, more, from, commands + [command], marks + [|more| - 1])
  {
    hide Step, StepAt;
    var mark, later := |more| - 1, marks + [|more| - 1];
    BeginAppend(from, marks, mark, |marks|);
    StepAtNow(f, more, |points| - 1, command);
    forall k | 0 <= k < |later|
      ensures StepAt(f, more, Begin(from, later, k), later[k], (commands + [command])[k])
    {
      BeginAppend(from, marks, mark, k);
      if k < |marks| {
        StepAtLater(f, points, more, Begin(from, marks, k), marks[k], commands[k]);
      }
    }
  }

  lemma {:induction false} IndexAtBegin(f: Format, points: seq<Disk>, from: nat, commands: seq<Command>,
                                        marks: seq<nat>, k: nat)
    requires from < |points| && Timeline(f, points, from, commands, marks) && k <= |marks|
    ensures from <= Begin(from, marks, k) < |points|
    ensures points[Begin(from, marks, k)].index == Indexed(f, points[from].index, commands[..k])
    decreases k
  {
    hide StepAt, Indexed;
    if k == 0 {
      NothingIndexed(f, points[from].index);
    } else {
      IndexAtBegin(f, points, from, commands, marks, k - 1);
      StepAtFacts(f, points, Begin(from, marks, k - 1), marks[k - 1], commands[k - 1]);
      IndexedStep(f, points[from].index, commands[..k - 1], commands[k - 1]);
      assert commands[..k - 1] + [commands[k - 1]] == commands[..k];
    }
  }

  lemma NothingIndexed(f: Format, index: IndexFile)
    ensures Indexed(f, index, []) == index
  {
  }

  /** Every state is one in which some number of commands was complete. */
  lemma {:induction false} StateIsDuring(points: seq<Disk>, from: nat, marks: seq<nat>, n: nat, j: nat) returns (k: nat)
    requires from <= j < |points| && n <= |marks| && (n < |marks| ==> j < marks[n])
    ensures During(points, from, marks, k, j)
    decreases n
  {
    if Begin(from, marks, n) <= j {
      k := n;
    } else {
      k := StateIsDuring(points, from, marks, n - 1, j);
    }
  }

  /** So the index is always that of the commands complete by then, or torn. */
  lemma TimelineOfIndex(f: Format, points: seq<Disk>, from: nat, commands: seq<Command>, marks: seq<nat>)
    requires from < |points| && Timeline(f, points, from, commands, marks)
    ensures IndexInTime(f, points, from, commands, marks)
  {
    hide StepAt, Indexed;
    forall k: nat, j: nat | During(points, from, marks, k, j)
      ensures points[j].index == Indexed(f, points[from].index, commands[..k])
              || (points[j].index == Corrupt && k < |marks| && j == marks[k] - 1 && commands[k].Module(f).Some?)
    {
      IndexAtBegin(f, points, from, commands, marks, k);
      if k < |marks| {
        StepAtFacts(f, points, Begin(from, marks, k), marks[k], commands[k]);
      }
    }
  }

  /** And what a command has stored stays readable. */
  lemma TimelineOfContents(f: Format, points: seq<Disk>, from: nat, commands: seq<Command>, marks: seq<nat>)
    requires HexHash(f.hash) && from < |points| && Growing(points, from)
    requires Timeline(f, points, from, commands, marks)
    ensures ReadableInTime(f, points, commands, marks)
  {
    hide StepAt, Growing, AllReadable;
    forall k, j | 0 <= k < |marks| && marks[k] <= j < |points|
      ensures AllReadable(f, points[j].blobs, commands[k].Contents(f))
    {
      StepAtFacts(f, points, Begin(from, marks, k), marks[k], commands[k]);
      IndexAtBegin(f, points, from, commands, marks, k);
      GrowingLater(points, from, marks[k]);
      ReadableThroughout(f, points, marks[k], commands[k].Contents(f));
    }
  }

  lemma GrowingLater(points: seq<Disk>, from: nat, later: nat)
    requires Growing(points, from) && from <= later
    ensures Growing(points, later)
  {
  }

  lemma AllContentsStep(f: Format, commands: seq<Command>, command: Command)
    ensures AllContents(f, commands + [command]) == AllContents(f, commands) + command.Contents(f)
  {
    var all := commands + [command];
    assert all[|commands|] == command;
    assert forall c :: c in commands ==> c in all;
  }

  lemma JoinSound(f: Format, points: seq<Disk>, more: seq<Disk>, from: nat, x: set<Bytes>, y: set<Bytes>)
    requires from < |points| && points <= more
    requires AllSound(f, points, from, x) && AllSound(f, more, |points| - 1, y)
    ensures AllSound(f, more, from, x + y)
  {
    var mid := |points| - 1;
    assert FinishedContents(points[mid]) <= FinishedContents(points[from]) + x;
    forall j | from <= j < |more|
      ensures Sound(f, more[j]) && FinishedContents(more[j]) <= FinishedContents(more[from]) + (x + y)
    {
      if j < mid {
        assert more[j] == points[j];
      }
    }
  }

  /** One more command keeps the guarantees of a run. */
  lemma GuardedStep(f: Format, points: seq<Disk>, more: seq<Disk>, from: nat, commands: seq<Command>,
                    command: Command, marks: seq<nat>)
    requires HexHash(f.hash) && points <= more && Guarded(f, points, from, commands, marks)
    requires Step(f, more, |points| - 1, command)
    ensures Guarded(f, more, from, commands + [command], marks + [|more| - 1])
  {
    hide Sound, AllSound, Growing, Step, FinishedContents, Timeline;
    StepParts(f, more, |points| - 1, command);
    JoinGrowing(points, more, from);
    JoinSound(f, points, more, from, AllContents(f, commands), command.Contents(f));
    AllContentsStep(f, commands, command);
    TimelineStep(f, points, more, from, commands, command, marks);
  }

  lemma ModuleIsConsistent(f: Format, points: seq<Disk>, from: nat, parts: Parts, reference: string)
    requires f.Valid() && from < |points| && Consistent(f, points[from])
    requires StoredAlong(f, points, from, parts, reference)
    requires Sole(f.hash, FinishedContents(points[from]) + parts.Contents(f), parts.ManifestBytes(f))
    ensures AllConsistent(f, points, from)
  {
    hide Consistent, Sole, Stored, Grown, Kept;
    var n := |points| - 2;
    if points[from].index.Index? {
      GrowthConsistent(f, points[..n], from, parts.Contents(f));
      assert Consistent(f, points[..n][n - 1]);
      TornIsConsistent(f, points[n - 1]);
      StoredIsConsistent(f, points[from], points[n + 1], parts, reference);
    } else {
      GrowthConsistent(f, points, from, parts.Contents(f));
    }
  }

  lemma GrowthConsistent(f: Format, points: seq<Disk>, from: nat, added: set<Bytes>)
    requires HexHash(f.hash) && Growth(f, points, from, added) && Consistent(f, points[from])
    ensures AllConsistent(f, points, from)
  {
    forall j | from <= j < |points|
      ensures Consistent(f, points[j])
    {
      GrowthIsConsistent(f, points[from], points[j], added);
    }
  }

  lemma JoinConsistent(f: Format, points: seq<Disk>, more: seq<Disk>, from: nat)
    requires from < |points| && points <= more
    requires AllConsistent(f, points, from) && AllConsistent(f, more, |points| - 1)
    ensures AllConsistent(f, more, from)
  {
    forall j | from <= j < |more|
      ensures Consistent(f, more[j])
    {
      if j < |points| {
        assert more[j] == points[j];
      }
    }
  }

  lemma ContentsInAll(f: Format, commands: seq<Command>, i: nat)
    requires i < |commands|
    ensures AllContents(f, commands[..i]) + commands[i].Contents(f) <= AllContents(f, commands)
  {
    assert commands[i] in commands && forall c :: c in commands[..i] ==> c in commands;
  }

  lemma SoleForStep(f: Format, points: seq<Disk>, from: nat, commands: seq<Command>, i: nat)
    requires i < |commands| && from < |points| && AllSound(f, points, from, AllContents(f, commands[..i]))
    requires SoleManifests(f, FinishedContents(points[from]) + AllContents(f, commands), commands)
    ensures SoleManifest(f, FinishedContents(points[|points| - 1]), commands[i])
    ensures AllConsistent(f, points, from) ==> Consistent(f, points[|points| - 1])
  {
    ContentsInAll(f, commands, i);
    assert FinishedContents(points[|points| - 1]) <= FinishedContents(points[from]) + AllContents(f, commands[..i]);
    assert commands[i] in commands;
  }

  lemma AnyEarlierIndex(f: Format, points: seq<Disk>, from: nat)
    requires HexHash(f.hash) && Growing(points, from)
    requires AllConsistent(f, points, from)
    ensures forall i, j :: from <= i <= j < |points| ==> Consistent(f, Disk(points[j].blobs, points[i].index))
  {
    forall i, j | from <= i <= j < |points|
      ensures Consistent(f, Disk(points[j].blobs, points[i].index))
    {
      assert Consistent(f, points[j]);
      IndexStaysValid(f, points[i], points[j].blobs);
    }
  }

  /** The additions to the index that a run amounts to. */
  ghost function Additions(f: Format, commands: seq<Command>): seq<Addition> {
    if commands == [] then []
    else
      var last, before := commands[|commands| - 1], Additions(f, commands[..|commands| - 1]);
      if last.Module(f).Some? then
        var manifest := last.Module(f).value.ManifestBytes(f);
        before + [Addition(last.reference, ComputeDigest(f.hash, manifest), Saturate(|manifest|))]
      else before
  }

  /** References, once in the index, stay in it, and stand for what was last stored. */
  lemma {:induction false} IndexedRefinesMap(f: Format, index: IndexFile, commands: seq<Command>)
    requires index.Index?
    ensures Indexed(f, index, commands).Index?
    ensures AsMap(Indexed(f, index, commands).Entries()) == UpdateAll(AsMap(index.Entries()), Additions(f, commands))
    ensures AsMap(index.Entries()).Keys <= AsMap(Indexed(f, index, commands).Entries()).Keys
    decreases |commands|
  {
    if commands != [] {
      var init, last := commands[..|commands| - 1], commands[|commands| - 1];
      IndexedRefinesMap(f, index, init);
      if last.Module(f).Some? {
        var manifest, adds := last.Module(f).value.ManifestBytes(f), Additions(f, init);
        var a := Addition(last.reference, ComputeDigest(f.hash, manifest), Saturate(|manifest|));
        UpsertIsMapUpdate(Indexed(f, index, init).Entries(), a.reference, a.digest, a.size);
        assert (adds + [a])[..|adds|] == adds;
      }
    }
  }
}
