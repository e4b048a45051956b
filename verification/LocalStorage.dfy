/** The store on disk, one file-system effect at a time. */
module LocalStorage {
  import opened BlobStore
  import opened Digest
  import opened FabricksModules
  import opened ImageIndex
  import opened StorageRuns
  import opened StoreReading
  import opened StoredManifests
  import opened Wrappers

  class LocalStorage {
    const format: Format
    var blobs: map<string, Bytes>
    var index: IndexFile
    /** Every state the disk has been in, so every state a crash of the process can leave. A
        loss of power can leave others unless the file system makes effects durable in
        order: neither the directory after a rename nor the index is synced. */
    ghost var crashPoints: seq<Disk>

    function Now(): Disk
      reads this
    {
      Disk(blobs, index)
    }

    ghost predicate Valid()
      reads this
    {
      crashPoints != [] && crashPoints[|crashPoints| - 1] == Now()
    }

    /** Opens a directory, creating the index if there is none. */
    constructor (format: Format, found: Disk)
      ensures Valid() && this.format == format
      ensures blobs == found.blobs
      ensures index == if found.index.Absent? then Index(Some([])) else found.index
      ensures crashPoints == if found.index.Absent? then [found, Disk(found.blobs, Corrupt), Now()] else [found]
    {
      this.format, blobs, index := format, found.blobs, found.index;
      crashPoints := [found];
      new;
      if index.Absent? {
        WriteIndex(Index(Some([])));
      }
    }

    // Each of the following is one effect on the file system, or two.

    method CreateFile(name: string)
      requires Valid()
      modifies this
      ensures Valid() && crashPoints == old(crashPoints) + [Now()]
      ensures blobs == old(blobs)[name := []] && index == old(index)
    {
      blobs := blobs[name := []];
      crashPoints := crashPoints + [Now()];
    }

    method Append(name: string, chunk: Bytes)
      requires Valid() && name in blobs
      modifies this
      ensures Valid() && crashPoints == old(crashPoints) + [Now()]
      ensures blobs == old(blobs)[name := old(blobs)[name] + chunk] && index == old(index)
    {
      blobs := blobs[name := blobs[name] + chunk];
      crashPoints := crashPoints + [Now()];
    }

    method Rename(source: string, target: string)
      requires Valid() && source in blobs
      modifies this
      ensures Valid() && crashPoints == old(crashPoints) + [Now()]
      ensures blobs == (old(blobs) - {source})[target := old(blobs)[source]] && index == old(index)
    {
      blobs := (blobs - {source})[target := blobs[source]];
      crashPoints := crashPoints + [Now()];
    }

    method RemoveFile(name: string)
      requires Valid()
      modifies this
      ensures Valid() && crashPoints == old(crashPoints) + [Now()]
      ensures blobs == old(blobs) - {name} && index == old(index)
    {
      blobs := blobs - {name};
      crashPoints := crashPoints + [Now()];
    }

    method RemoveIndex()
      requires Valid()
      modifies this
      ensures Valid() && crashPoints == old(crashPoints) + [Now()]
      ensures blobs == old(blobs) && index == Absent
    {
      index := Absent;
      crashPoints := crashPoints + [Now()];
    }

    /** `fs::write` truncates the file and then fills it. In between, no part of the JSON
        object that has arrived can be parsed. */
    method WriteIndex(written: IndexFile)
      requires Valid()
      modifies this
      ensures Valid() && blobs == old(blobs) && index == written
      ensures crashPoints == old(crashPoints) + [Disk(blobs, Corrupt), Now()]
    {
      index := Corrupt;
      crashPoints := crashPoints + [Now()];
      index := written;
      crashPoints := crashPoints + [Now()];
    }

    /** Writes the data in chunks of any size, each of which may be the last to arrive. */
    method WriteAll(name: string, data: Bytes)
      requires Valid() && IsTmp(name) && name in blobs && blobs[name] == []
      modifies this
      ensures Valid() && old(crashPoints) <= crashPoints
      ensures blobs == old(blobs)[name := data] && index == old(index)
      ensures Growth(format, crashPoints, |old(crashPoints)| - 1, {})
    {
      hide Growth, IsTmp;
      var written := 0;
      ghost var from := |crashPoints| - 1;
      NoGrowth(format, crashPoints);
      while written < |data|
        invariant 0 <= written <= |data|
        invariant name in blobs && blobs == old(blobs)[name := data[..written]] && index == old(index)
        invariant Valid() && old(crashPoints) <= crashPoints
        invariant Growth(format, crashPoints, from, {})
      {
        var next :| written < next <= |data|;
        assert data[..next] == data[..written] + data[written..next];
        ghost var before := crashPoints;
        Append(name, data[written..next]);
        GrowthOfWrite(format, before, from, name, blobs[name], Now());
        written := next;
      }
      assert data[..written] == data;
    }

    method WriteTemporary(name: string, data: Bytes)
      requires Valid() && IsTmp(name)
      modifies this
      ensures Valid() && old(crashPoints) <= crashPoints
      ensures blobs == old(blobs)[name := data] && index == old(index)
      ensures Growth(format, crashPoints, |old(crashPoints)| - 1, {})
    {
      ghost var from, p0 := |crashPoints| - 1, crashPoints;
      NoGrowth(format, p0);
      CreateFile(name);
      GrowthOfWrite(format, p0, from, name, [], Now());
      ghost var p1 := crashPoints;
      WriteAll(name, data);
      JoinGrowth(format, p1, crashPoints, from, {}, {});
    }

    /** Stores data under its hash: written to a temporary file, then renamed. At every
        point in between, finished blobs are as they were or hold the new data. */
    method StoreBlob(data: Bytes) returns (digest: string)
      requires Valid() && HexHash(format.hash)
      modifies this
      ensures Valid() && old(crashPoints) <= crashPoints
      ensures digest == ComputeDigest(format.hash, data) == "sha256:" + format.hash(data)
      ensures index == old(index) && WithBlob(format.hash(data), old(blobs), blobs, data)
      ensures Grew(format, crashPoints, |old(crashPoints)| - 1, {data})
      ensures forall n :: n in blobs && IsTmp(n) ==> n in old(blobs)
    {
      digest := ComputeDigest(format.hash, data);
      var name := format.hash(data);
      assert Hex64(name);
      HexIsNotTmp(name);
      if name in blobs {
        return;
      }
      var temporary := name + TMP;
      assert temporary[|temporary| - |TMP|..] == TMP;
      ghost var from := |crashPoints| - 1;
      hide Grown, Growing, Growth, Hex64, HexHash;
      WriteTemporary(temporary, data);
      ghost var points, written := crashPoints, Now();
      Rename(temporary, name);
      RenameGrows(format, written, Now(), temporary, data);
      GrowthOfStep(format, points, Now(), {data});
      JoinGrowth(format, points, crashPoints, from, {}, {data});
      assert {} + {data} == {data};
    }

    /** Replaces the entry of a reference in the index. While the index is being written it
        cannot be read; the blobs are not touched. */
    method AddToIndex(reference: string, digest: string, size: int) returns (r: Result<(), StorageError>)
      requires Valid()
      modifies this
      ensures Valid() && blobs == old(blobs)
      ensures r.Ok? <==> old(index).Index?
      ensures r.Ok? ==> index == Index(Some(Upsert(old(index).Entries(), reference, digest, size)))
      ensures r.Ok? ==> crashPoints == old(crashPoints) + [Disk(blobs, Corrupt), Now()]
      ensures r.Err? ==> r == Err(UnreadableIndex) && index == old(index) && crashPoints == old(crashPoints)
    {
      if !index.Index? {
        return Err(UnreadableIndex);
      }
      WriteIndex(Index(Some(Upsert(index.Entries(), reference, digest, size))));
      return Ok(());
    }

    /** Stores the layers one after the other, collecting their descriptors. */
    method StoreLayers(layers: seq<ModuleLayer>) returns (descriptors: seq<LayerDescriptor>)
      requires Valid() && HexHash(format.hash)
      modifies this
      ensures Valid() && old(crashPoints) <= crashPoints
      ensures descriptors == Descriptors(format.hash, layers)
      ensures Grew(format, crashPoints, |old(crashPoints)| - 1, LayerContents(layers))
    {
      hide Grew, WithBlob;
      descriptors := [];
      ghost var from := |crashPoints| - 1;
      NothingGrew(format, crashPoints);
      assert LayerContents(layers[..0]) == {};
      for i := 0 to |layers|
        invariant Descriptors(format.hash, layers) == descriptors + Descriptors(format.hash, layers[i..])
        invariant Valid() && old(crashPoints) <= crashPoints
        invariant Grew(format, crashPoints, from, LayerContents(layers[..i]))
      {
        var layer := layers[i];
        assert layers[i..][1..] == layers[i + 1..];
        ghost var points := crashPoints;
        var digest := StoreBlob(layer.data);
        descriptors := descriptors
                       + [LayerDescriptor(layer.mediaType, digest, Saturate(|layer.data|), layer.annotations)];
        NextLayer(layers, i);
        JoinGrew(format, points, crashPoints, from, LayerContents(layers[..i]), {layer.data});
      }
      assert layers[..|layers|] == layers;
    }

    /** Stores configuration, layers and manifest. All this while the disk only grows. */
    method StoreParts(fabrick: FabricksModule, configBytes: Bytes)
        returns (manifestBytes: Bytes, manifestDigest: string)
      requires Valid() && HexHash(format.hash) && format.encodeConfig(fabrick.config) == Some(configBytes)
      modifies this
      ensures Valid() && old(crashPoints) <= crashPoints
      ensures manifestBytes == PartsOf(format, fabrick).ManifestBytes(format)
      ensures manifestDigest == ComputeDigest(format.hash, manifestBytes)
      ensures Grew(format, crashPoints, |old(crashPoints)| - 1, PartsOf(format, fabrick).Contents(format))
    {
      hide HexHash, Describe, Saturate, Grew, WithBlob;
      ghost var from, data := |crashPoints| - 1, LayerContents(fabrick.layers);
      var configDigest := StoreBlob(configBytes);
      ghost var p1 := crashPoints;
      var descriptors := StoreLayers(fabrick.layers);
      JoinGrew(format, p1, crashPoints, from, {configBytes}, data);
      ghost var p2 := crashPoints;
      var manifest := Manifest(2, Some(MANIFEST_MEDIA_TYPE), Some(ARTIFACT_TYPE),
                               ConfigDescriptor(CONFIG_MEDIA_TYPE, configDigest, Saturate(|configBytes|)),
                               descriptors, Some(BuildAnnotations(fabrick.config, fabrick.annotations)));
      manifestBytes := format.encodeManifest(manifest);
      manifestDigest := StoreBlob(manifestBytes);
      JoinGrew(format, p2, crashPoints, from, {configBytes} + data, {manifestBytes});
      assert PartsOf(format, fabrick).Contents(format) == {configBytes} + data + {manifestBytes};
    }

    /** Stores a module and then points the reference at it. The index is written last. */
    method StoreModule(fabrick: FabricksModule, reference: string) returns (r: Result<string, StorageError>)
      requires Valid() && HexHash(format.hash)
      modifies this
      ensures Valid() && old(crashPoints) <= crashPoints
      ensures format.encodeConfig(fabrick.config).None? ==>
                r == Err(ConfigNotSerializable) && Now() == old(Now()) && crashPoints == old(crashPoints)
      ensures format.encodeConfig(fabrick.config).Some? ==>
                var parts := PartsOf(format, fabrick);
                && r == (if old(index).Index? then Ok(ComputeDigest(format.hash, parts.ManifestBytes(format)))
                         else Err(UnreadableIndex))
                && StoredAlong(format, crashPoints, |old(crashPoints)| - 1, parts, reference)
      ensures r.Ok? ==> exists m ::
                && StoredAs(format, Now(), m, reference, r.value)
                && DescribesModule(format, m, fabrick.config, format.encodeConfig(fabrick.config).value,
                                   fabrick.layers, fabrick.annotations)
    {
      hide HexHash, Growing, Kept, Describe, BuildAnnotations, StoredAs, DescribesModule;
      var encoded := format.encodeConfig(fabrick.config);
      if encoded.None? {
        return Err(ConfigNotSerializable);
      }
      var manifestBytes, manifestDigest := StoreParts(fabrick, encoded.value);
      ghost var points := crashPoints;
      var added := AddToIndex(reference, manifestDigest, Saturate(|manifestBytes|));
      if added.Err? {
        return Err(added.error);
      }
      assert crashPoints[..|crashPoints| - 2] == points;
      StoredAlongDescribes(format, crashPoints, |old(crashPoints)| - 1, fabrick.config, encoded.value, fabrick.layers,
                           fabrick.annotations, reference);
      return Ok(manifestDigest);
    }

    /** Deletes what the digest's path leads to, whether or not the index still refers to
        it. What happens elsewhere in the file system is not part of the model, and so
        neither is whether the removal succeeds there. */
    method DeleteBlob(digest: string) returns (r: Result<(), StorageError>)
      requires Valid()
      modifies this
      ensures Valid() && Now() == Deleted(format, old(Now()), digest)
      ensures old(crashPoints) <= crashPoints
      ensures forall j :: |old(crashPoints)| <= j < |crashPoints| ==> crashPoints[j] == Now()
      ensures (forall name :: digest != "sha256:" + name) ==> r == Err(InvalidDigest(digest)) && Now() == old(Now())
      ensures forall name :: digest == "sha256:" + name ==>
                match format.resolve(name)
                case BlobFile(n) =>
                  && r.Ok? && n !in blobs && blobs == old(blobs) - {n} && index == old(index)
                  && GetBlob(format.hash, blobs, "sha256:" + n) == Err(MissingBlob("sha256:" + n))
                case IndexJson => r.Ok? && blobs == old(blobs) && index == Absent
                case Elsewhere => (r.Ok? || r == Err(NotRemoved(digest))) && Now() == old(Now())
    {
      var name := StripPrefix(digest);
      DigestIsRead(format.hash, digest);
      if name.None? {
        assert forall suffix :: digest == "sha256:" + suffix ==> name == Some(suffix);
        return Err(InvalidDigest(digest));
      }
      var place := format.resolve(name.value);
      if place.Elsewhere? {
        var removed: bool := *;
        return if removed then Ok(()) else Err(NotRemoved(digest));
      }
      if place.IndexJson? {
        if !index.Absent? {
          RemoveIndex();
        }
      } else if place.name in blobs {
        RemoveFile(place.name);
      }
      return Ok(());
    }

    method ReadManifestOf(reference: string) returns (r: Result<Manifest, StorageError>)
      ensures r.Ok? <==> ManifestDigest(Now(), reference).Ok?
                         && ReadManifest(format, blobs, ManifestDigest(Now(), reference).value).Ok?
      ensures r.Ok? ==> r == ReadManifest(format, blobs, ManifestDigest(Now(), reference).value)
      ensures r.Err? ==> r.error == (if ManifestDigest(Now(), reference).Err?
                                     then ManifestDigest(Now(), reference).error
                                     else ReadManifest(format, blobs, ManifestDigest(Now(), reference).value).error)
    {
      if !index.Index? {
        return Err(UnreadableIndex);
      }
      if index.manifests.None? {
        return Err(NoManifests);
      }
      var digest := FindDigest(index.manifests.value, reference);
      if digest.None? {
        return Err(ReferenceNotFound(reference));
      }
      r := ReadManifest(format, blobs, digest.value);
    }

    method LoadModule(reference: string) returns (r: Result<Module, StorageError>)
      ensures r == Load(format, Now(), reference)
    {
      var manifest := ReadManifestOf(reference);
      if manifest.Err? {
        return Err(manifest.error);
      }
      var config := ReadConfig(format, blobs, manifest.value.config.digest);
      if config.Err? {
        return Err(config.error);
      }
      var descriptors := manifest.value.layers;
      var layers: seq<ModuleLayer> := [];
      ghost var all := ReadLayers(format.hash, blobs, descriptors);
      assert descriptors[0..] == descriptors;
      for i := 0 to |descriptors|
        invariant var rest := ReadLayers(format.hash, blobs, descriptors[i..]);
                  if rest.Err? then all == Err(rest.error) else all.Ok? && all.value == layers + rest.value
      {
        assert descriptors[i..][1..] == descriptors[i + 1..];
        var data := GetBlob(format.hash, blobs, descriptors[i].digest);
        if data.Err? {
          return Err(data.error);
        }
        layers := layers + [ModuleLayer(descriptors[i].mediaType, data.value, descriptors[i].annotations)];
      }
      assert all.value == layers;
      return Ok(Module(config.value, layers));
    }

    method GetLayerByMediaType(reference: string, mediaType: string) returns (r: Result<Option<Bytes>, StorageError>)
      ensures r == LayerByMediaType(format, Now(), reference, mediaType)
    {
      var manifest := ReadManifestOf(reference);
      if manifest.Err? {
        return Err(manifest.error);
      }
      var layers := manifest.value.layers;
      for i := 0 to |layers|
        invariant FirstData(format.hash, blobs, layers, mediaType)
               == FirstData(format.hash, blobs, layers[i..], mediaType)
      {
        assert layers[i..][1..] == layers[i + 1..];
        if layers[i].mediaType == mediaType {
          var data := GetBlob(format.hash, blobs, layers[i].digest);
          return if data.Err? then Err(data.error) else Ok(Some(data.value));
        }
      }
      return Ok(None);
    }

    method GetSourceLayers(reference: string) returns (r: Result<seq<Bytes>, StorageError>)
      ensures r == SourcesOf(format, Now(), reference)
    {
      var manifest := ReadManifestOf(reference);
      if manifest.Err? {
        return Err(manifest.error);
      }
      var layers := manifest.value.layers;
      var sources: seq<Bytes> := [];
      ghost var all := SourceData(format.hash, blobs, layers);
      assert layers[0..] == layers;
      for i := 0 to |layers|
        invariant var rest := SourceData(format.hash, blobs, layers[i..]);
                  if rest.Err? then all == Err(rest.error) else all.Ok? && all.value == sources + rest.value
      {
        assert layers[i..][1..] == layers[i + 1..];
        if layers[i].mediaType == SOURCE_LAYER {
          var data := GetBlob(format.hash, blobs, layers[i].digest);
          if data.Err? {
            return Err(data.error);
          }
          sources := sources + [data.value];
        }
      }
      assert all.value == sources;
      return Ok(sources);
    }

    /** Carries out a run of storing operations, one after the other. For any hash whatever, at
        every crash point of the run blobs match their names, every indexed digest can be
        read, the index is that of the operations complete by then or torn just before the
        next one is complete, and whatever an operation has stored can be read from its mark
        on. If moreover nothing on disk or in the run has the hash of one of its manifests,
        then at every crash point each indexed manifest is complete, and would be under any
        earlier index as well: a crash that tears the index loses the references and nothing
        else. */
    method Run(commands: seq<Command>) returns (ghost marks: seq<nat>)
      requires Valid() && HexHash(format.hash) && Sound(format, Now())
      modifies this
      ensures Valid() && old(crashPoints) <= crashPoints
      ensures Guarded(format, crashPoints, |old(crashPoints)| - 1, commands, marks)
      ensures IndexInTime(format, crashPoints, |old(crashPoints)| - 1, commands, marks)
      ensures ReadableInTime(format, crashPoints, commands, marks)
      ensures format.Valid() && Consistent(format, old(Now()))
              && SoleManifests(format, FinishedContents(old(Now())) + AllContents(format, commands), commands)
              ==> forall i, j :: |old(crashPoints)| - 1 <= i <= j < |crashPoints| ==>
                    Consistent(format, Disk(crashPoints[j].blobs, crashPoints[i].index))
    {
      hide Guarded, Timeline, IndexInTime, ReadableInTime, Step, Growing, AllSound, HexHash, FinishedContents;
      hide Consistent, AllConsistent, SoleManifests, SoleManifest, Sound, Recorded, AllContents;
      ghost var from, universe := |crashPoints| - 1, FinishedContents(Now()) + AllContents(format, commands);
      ghost var manifestsAreSole := format.Valid() && Consistent(format, Now())
                                    && SoleManifests(format, universe, commands);
      marks := [];
      GuardedInitially(format, crashPoints);
      for i := 0 to |commands|
        invariant Valid() && old(crashPoints) <= crashPoints
        invariant Guarded(format, crashPoints, from, commands[..i], marks)
        invariant manifestsAreSole ==> AllConsistent(format, crashPoints, from)
      {
        ghost var points := crashPoints;
        GuardedNow(format, points, from, commands[..i], marks);
        if manifestsAreSole {
          SoleForStep(format, points, from, commands, i);
        }
        Perform(commands[i]);
        assert commands[..i + 1] == commands[..i] + [commands[i]];
        GuardedStep(format, points, crashPoints, from, commands[..i], commands[i], marks);
        if manifestsAreSole {
          JoinConsistent(format, points, crashPoints, from);
        }
        marks := marks + [|crashPoints| - 1];
      }
      assert commands[..|commands|] == commands;
      GuardedNow(format, crashPoints, from, commands, marks);
      TimelineOfIndex(format, crashPoints, from, commands, marks);
      TimelineOfContents(format, crashPoints, from, commands, marks);
      if manifestsAreSole {
        AnyEarlierIndex(format, crashPoints, from);
      }
    }

    method Perform(command: Command)
      requires Valid() && HexHash(format.hash) && Sound(format, Now())
      modifies this
      ensures Valid() && old(crashPoints) <= crashPoints
      ensures Step(format, crashPoints, |old(crashPoints)| - 1, command)
      ensures Recorded(format, old(Now()), Now(), command)
      ensures format.Valid() && Consistent(format, old(Now()))
              && SoleManifest(format, FinishedContents(old(Now())), command)
              ==> AllConsistent(format, crashPoints, |old(crashPoints)| - 1)
    {
      hide Step, Consistent, AllConsistent, SoleManifest, Sound, HexHash, Growing, Grown, Stored;
      hide StoredAs, DescribesModule, WithBlob, StoredAlong;
      ghost var from := |crashPoints| - 1;
      if command.PutBlob? {
        var _ := StoreBlob(command.data);
        BlobStep(format, crashPoints, from, command);
        return;
      }
      var fabrick := new FabricksModule.FromLayers(command.config, command.layers);
      fabrick.annotations := command.custom;
      var _ := StoreModule(fabrick, command.reference);
      if command.Module(format).Some? {
        ModuleStep(format, crashPoints, from, command);
        StoredAlongDescribes(format, crashPoints, from, command.config, format.encodeConfig(command.config).value,
                             command.layers, command.custom, command.reference);
      } else {
        IdleStep(format, crashPoints, from, command);
      }
    }
  }

  /** The blobs after data was stored under its name, unless something was there before. No
      temporary file of that name remains. */
  ghost predicate WithBlob(name: string, before: map<string, Bytes>, after: map<string, Bytes>, data: Bytes) {
    after == if name in before then before else (before - {name + ".tmp"})[name := data]
  }

  lemma RenameGrows(f: Format, before: Disk, after: Disk, temporary: string, data: Bytes)
    requires IsTmp(temporary) && temporary in before.blobs && before.blobs[temporary] == data
    requires !IsTmp(f.hash(data)) && f.hash(data) !in before.blobs
    requires after == Disk((before.blobs - {temporary})[f.hash(data) := data], before.index)
    ensures Grown(f, before, after, {data})
  {
  }

  /** What a command has written down at its end. */
  ghost predicate Recorded(f: Format, before: Disk, after: Disk, command: Command) {
    match command
    case PutBlob(data) => WithBlob(f.hash(data), before.blobs, after.blobs, data) && after.index == before.index
    case PutModule(config, layers, custom, reference) =>
      match f.encodeConfig(config)
      case None => after == before
      case Some(configBytes) =>
        if before.index.Index? then
          exists m, digest ::
            StoredAs(f, after, m, reference, digest) && DescribesModule(f, m, config, configBytes, layers, custom)
        else after.index == before.index
  }

  lemma StoredAlongDescribes(f: Format, points: seq<Disk>, from: nat, config: Fabrickfile, configBytes: Bytes,
                             layers: seq<ModuleLayer>, custom: Annotations, reference: string)
    requires StoredAlong(f, points, from, Parts(configBytes, layers, BuildAnnotations(config, custom)), reference)
    ensures var last := points[|points| - 1];
            if points[from].index.Index? then
              var m := ManifestOf(f.hash, configBytes, layers, BuildAnnotations(config, custom));
              && StoredAs(f, last, m, reference, ComputeDigest(f.hash, f.encodeManifest(m)))
              && DescribesModule(f, m, config, configBytes, layers, custom)
            else last.index == points[from].index
  {
    hide StoredAs, DescribesModule, BuildAnnotations, Stored;
    var last, parts := points[|points| - 1], Parts(configBytes, layers, BuildAnnotations(config, custom));
    if points[from].index.Index? {
      StoredIsDescribed(f, points[from], last, config, configBytes, layers, custom, reference);
    } else {
      assert Grown(f, points[from], last, parts.Contents(f));
    }
  }

  ghost function PartsOf(f: Format, fabrick: FabricksModule): Parts
    requires f.encodeConfig(fabrick.config).Some?
    reads fabrick
  {
    Parts(f.encodeConfig(fabrick.config).value, fabrick.layers, BuildAnnotations(fabrick.config, fabrick.annotations))
  }

  lemma NextLayer(layers: seq<ModuleLayer>, i: nat)
    requires i < |layers|
    ensures LayerContents(layers[..i + 1]) == LayerContents(layers[..i]) + {layers[i].data}
  {
  }
}
