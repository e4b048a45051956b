/** Which module a reference stands for at each point of a run of storing operations. */
module StoredModules {
  import opened BlobStore
  import opened Digest
  import opened FabricksModules
  import opened ImageIndex
  import opened StorageRuns
  import opened Wrappers

  ghost predicate StoresUnder(f: Format, command: Command, reference: string) {
    command.Module(f).Some? && command.reference == reference
  }

  /** The last of the commands that stores a module under the reference. */
  ghost function LastStored(f: Format, commands: seq<Command>, reference: string): (r: Option<Command>)
    ensures r.Some? ==> r.value in commands && StoresUnder(f, r.value, reference)
    ensures r.None? ==> forall command :: command in commands ==> !StoresUnder(f, command, reference)
  {
    if commands == [] then None
    else
      var last := commands[|commands| - 1];
      if StoresUnder(f, last, reference) then Some(last) else LastStored(f, commands[..|commands| - 1], reference)
  }

  /** After a run, a reference names the manifest last stored under it. */
  lemma {:induction false} IndexedNames(f: Format, index: IndexFile, commands: seq<Command>, reference: string)
    requires index.Index?
    ensures Indexed(f, index, commands).Index?
    ensures Get(AsMap(Indexed(f, index, commands).Entries()), reference)
         == match LastStored(f, commands, reference)
            case Some(command) => Some(ComputeDigest(f.hash, command.Module(f).value.ManifestBytes(f)))
            case None => Get(AsMap(index.Entries()), reference)
    decreases |commands|
  {
    if commands != [] {
      var init, last := commands[..|commands| - 1], commands[|commands| - 1];
      IndexedNames(f, index, init, reference);
      if last.Module(f).Some? {
        var manifest := last.Module(f).value.ManifestBytes(f);
        UpsertIsMapUpdate(Indexed(f, index, init).Entries(), last.reference,
                          ComputeDigest(f.hash, manifest), Saturate(|manifest|));
      }
    }
  }

  /** Nothing else in the universe has the hash of a part of the module. */
  ghost predicate SoleParts(f: Format, universe: set<Bytes>, parts: Parts) {
    forall c :: c in parts.Contents(f) ==> Sole(f.hash, universe, c)
  }

  lemma ReadableReadsBack(f: Format, disk: Disk, universe: set<Bytes>, c: Bytes)
    requires HexHash(f.hash) && Readable(f, disk.blobs, ComputeDigest(f.hash, c))
    requires FinishedContents(disk) <= universe && Sole(f.hash, universe, c)
    ensures GetBlob(f.hash, disk.blobs, ComputeDigest(f.hash, c)) == Ok(c)
  {
    var name := f.hash(c);
    StripsOwnPrefix(name);
    assert Hex64(name);
    HexIsNotTmp(name);
    VerifyIffNamed(f.hash, disk.blobs[name], ComputeDigest(f.hash, c));
    assert disk.blobs[name] in FinishedContents(disk);
  }

  lemma ModuleReadsBack(f: Format, disk: Disk, universe: set<Bytes>, config: Fabrickfile, parts: Parts)
    requires f.Valid() && f.encodeConfig(config) == Some(parts.configBytes)
    requires AllReadable(f, disk.blobs, parts.Contents(f))
    requires FinishedContents(disk) <= universe && SoleParts(f, universe, parts)
    ensures ReadModule(f, disk.blobs, ComputeDigest(f.hash, parts.ManifestBytes(f))) == Ok(Module(config, parts.layers))
  {
    forall c | c in parts.Contents(f)
      ensures GetBlob(f.hash, disk.blobs, ComputeDigest(f.hash, c)) == Ok(c)
    {
      ReadableReadsBack(f, disk, universe, c);
    }
    PartsReadBack(f, disk.blobs, config, parts);
  }

  /** All that the commands complete by state `j` have stored can be read in it. */
  lemma CompleteIsReadable(f: Format, points: seq<Disk>, from: nat, commands: seq<Command>, marks: seq<nat>,
                           k: nat, j: nat, command: Command)
    requires |marks| == |commands| && ReadableInTime(f, points, commands, marks)
    requires Timeline(f, points, from, commands, marks)
    requires During(points, from, marks, k, j) && command in commands[..k]
    ensures AllReadable(f, points[j].blobs, command.Contents(f))
  {
    hide AllReadable, StepAt;
    var i :| 0 <= i < k && commands[i] == command;
    MarksAscend(f, points, from, commands, marks, i + 1, k);
  }

  lemma {:induction false} MarksAscend(f: Format, points: seq<Disk>, from: nat, commands: seq<Command>,
                                       marks: seq<nat>, i: nat, k: nat)
    requires Timeline(f, points, from, commands, marks) && i <= k <= |marks|
    ensures Begin(from, marks, i) <= Begin(from, marks, k)
    decreases k
  {
    hide Step;
    if i < k {
      MarksAscend(f, points, from, commands, marks, i, k - 1);
    }
  }

  /** The reference loads the module last stored under it, if nothing else has the hash of one
      of its parts; and if none was, it loads what it loaded before. */
  ghost predicate LoadsLast(f: Format, before: Disk, now: Disk, stored: seq<Command>, universe: set<Bytes>,
                            reference: string)
  {
    match LastStored(f, stored, reference)
    case Some(command) =>
      SoleParts(f, universe, command.Module(f).value)
      ==> Load(f, now, reference) == Ok(Module(command.config, command.layers))
    case None =>
      Load(f, before, reference).Ok? ==> Load(f, now, reference) == Load(f, before, reference)
  }

  /** At every crash point of a run at which the index can be read, every reference loads what
      the operations complete by then have stored last under it. */
  lemma LoadsLastStored(f: Format, points: seq<Disk>, from: nat, commands: seq<Command>, marks: seq<nat>,
                        k: nat, j: nat, reference: string)
    requires from < |points| && j < |points| && k <= |commands|
    requires points[from].index.Index? && points[j].index.Index?
    requires f.Valid() && During(points, from, marks, k, j) && Guarded(f, points, from, commands, marks)
    ensures LoadsLast(f, points[from], points[j], commands[..k],
                      FinishedContents(points[from]) + AllContents(f, commands), reference)
  {
    hide Guarded, During, AllReadable, Load, SoleParts, Kept, AllContents, Indexed, FinishedContents;
    var stored, universe := commands[..k], FinishedContents(points[from]) + AllContents(f, commands);
    var last := LastStored(f, stored, reference);
    StateFacts(f, points, from, commands, marks, k, j);
    if last.Some? {
      LoadsStored(f, points[from].index, points[j], stored, universe, reference);
    } else {
      LoadsEarlier(f, points[from], points[j], stored, reference);
    }
  }

  lemma StateFacts(f: Format, points: seq<Disk>, from: nat, commands: seq<Command>, marks: seq<nat>, k: nat, j: nat)
    requires HexHash(f.hash) && Guarded(f, points, from, commands, marks)
    requires During(points, from, marks, k, j) && points[j].index.Index?
    ensures k <= |commands| && points[j].index == Indexed(f, points[from].index, commands[..k])
    ensures FinishedContents(points[j]) <= FinishedContents(points[from]) + AllContents(f, commands)
    ensures Kept(points[from].blobs, points[j].blobs)
    ensures forall command :: command in commands[..k] ==> AllReadable(f, points[j].blobs, command.Contents(f))
  {
    hide StepAt, Indexed, Kept, Sound, FinishedContents, AllContents, AllReadable;
    TimelineOfIndex(f, points, from, commands, marks);
    TimelineOfContents(f, points, from, commands, marks);
    IndexAtBegin(f, points, from, commands, marks, k);
    forall command | command in commands[..k]
      ensures AllReadable(f, points[j].blobs, command.Contents(f))
    {
      CompleteIsReadable(f, points, from, commands, marks, k, j, command);
    }
  }

  lemma LoadsStored(f: Format, index: IndexFile, now: Disk, stored: seq<Command>, universe: set<Bytes>,
                    reference: string)
    requires f.Valid() && index.Index? && now.index == Indexed(f, index, stored)
    requires FinishedContents(now) <= universe && LastStored(f, stored, reference).Some?
    requires AllReadable(f, now.blobs, LastStored(f, stored, reference).value.Contents(f))
    ensures var command := LastStored(f, stored, reference).value;
            SoleParts(f, universe, command.Module(f).value)
            ==> Load(f, now, reference) == Ok(Module(command.config, command.layers))
  {
    hide AllReadable, ReadModule, SoleParts;
    var command := LastStored(f, stored, reference).value;
    IndexedNames(f, index, stored, reference);
    if SoleParts(f, universe, command.Module(f).value) {
      ModuleReadsBack(f, now, universe, command.config, command.Module(f).value);
    }
  }

  lemma LoadsEarlier(f: Format, before: Disk, now: Disk, stored: seq<Command>, reference: string)
    requires HexHash(f.hash) && before.index.Index? && now.index == Indexed(f, before.index, stored)
    requires Kept(before.blobs, now.blobs) && LastStored(f, stored, reference).None?
    ensures Load(f, before, reference).Ok? ==> Load(f, now, reference) == Load(f, before, reference)
  {
    hide ReadModule, Kept;
    IndexedNames(f, before.index, stored, reference);
    if Load(f, before, reference).Ok? {
      ModuleStays(f, before.blobs, now.blobs, ManifestDigest(before, reference).value);
    }
  }
}
