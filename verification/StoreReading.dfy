/** What the readers of the store yield, case by case: values as they are stored, and the
    first failure on the way. */
module StoreReading {
  import opened BlobStore
  import opened Digest
  import opened FabricksModules
  import opened ImageIndex
  import opened Sequences
  import opened Wrappers

  /** A blob is read exactly if it is there under what follows `sha256:` and has that hash. */
  lemma BlobIsRead(hash: Hasher, blobs: map<string, Bytes>, digest: string)
    ensures (forall name :: digest != "sha256:" + name) ==> GetBlob(hash, blobs, digest) == Err(InvalidDigest(digest))
    ensures forall name :: digest == "sha256:" + name ==>
              GetBlob(hash, blobs, digest) ==
                if name !in blobs then Err(MissingBlob(digest))
                else if hash(blobs[name]) != name then Err(VerificationFailed(digest))
                else Ok(blobs[name])
  {
    DigestIsRead(hash, digest);
    if StripPrefix(digest).Some? {
      var name := StripPrefix(digest).value;
      assert digest == "sha256:" + name;
      if name in blobs {
        VerifyIffNamed(hash, blobs[name], digest);
      }
    }
  }

  lemma DigestIsRead(hash: Hasher, digest: string)
    ensures forall name :: StripPrefix(digest) == Some(name) <==> digest == "sha256:" + name
  {
    forall name
      ensures StripPrefix(digest) == Some(name) <==> digest == "sha256:" + name
    {
      PrefixIsStripped(digest, name);
    }
  }

  /** A reference is looked up in the first entry that carries it. */
  lemma ReferenceIsRead(disk: Disk, reference: string)
    ensures !disk.index.Index? ==> ManifestDigest(disk, reference) == Err(UnreadableIndex)
    ensures disk.index == Index(None) ==> ManifestDigest(disk, reference) == Err(NoManifests)
    ensures disk.index.Index? && disk.index.manifests.Some? ==>
              var entries := disk.index.manifests.value;
              match ManifestDigest(disk, reference)
              case Ok(digest) => exists i :: IsFirst(entries, reference, i) && entries[i].digest == digest
              case Err(e) => e == ReferenceNotFound(reference) && forall e :: e in entries ==> !Carries(e, reference)
  {
    if disk.index.Index? && disk.index.manifests.Some? {
      FirstEntryWins(disk.index.manifests.value, reference);
    }
  }

  /** A module loads if index, manifest, configuration and layers can be read, and it is made
      of what they hold. */
  lemma ModuleIsRead(f: Format, disk: Disk, reference: string, digest: string, bytes: Bytes, manifest: Manifest,
                     configBytes: Bytes, loaded: Module)
    requires ManifestDigest(disk, reference) == Ok(digest)
    requires GetBlob(f.hash, disk.blobs, digest) == Ok(bytes) && f.decodeManifest(bytes) == Some(manifest)
    requires GetBlob(f.hash, disk.blobs, manifest.config.digest) == Ok(configBytes)
    requires f.decodeConfig(configBytes) == Some(loaded.config)
    requires |loaded.layers| == |manifest.layers|
    requires forall i :: 0 <= i < |manifest.layers| ==>
               && loaded.layers[i].mediaType == manifest.layers[i].mediaType
               && loaded.layers[i].annotations == manifest.layers[i].annotations
               && GetBlob(f.hash, disk.blobs, manifest.layers[i].digest) == Ok(loaded.layers[i].data)
    ensures Load(f, disk, reference) == Ok(loaded)
  {
    LayersAreRead(f.hash, disk.blobs, manifest.layers, loaded.layers);
  }

  lemma {:induction false} LayersAreRead(hash: Hasher, blobs: map<string, Bytes>, layers: seq<LayerDescriptor>,
                                         loaded: seq<ModuleLayer>)
    requires |loaded| == |layers|
    requires forall i :: 0 <= i < |layers| ==>
               && loaded[i].mediaType == layers[i].mediaType && loaded[i].annotations == layers[i].annotations
               && GetBlob(hash, blobs, layers[i].digest) == Ok(loaded[i].data)
    ensures ReadLayers(hash, blobs, layers) == Ok(loaded)
  {
    if layers != [] {
      LayersAreRead(hash, blobs, layers[1..], loaded[1..]);
      assert loaded == [loaded[0]] + loaded[1..];
    }
  }

  /** The error of the first layer that cannot be read. */
  lemma {:induction false} FirstLayerFails(hash: Hasher, blobs: map<string, Bytes>, layers: seq<LayerDescriptor>,
                                           i: nat)
    requires i < |layers| && GetBlob(hash, blobs, layers[i].digest).Err?
    requires forall j :: 0 <= j < i ==> GetBlob(hash, blobs, layers[j].digest).Ok?
    ensures ReadLayers(hash, blobs, layers) == Err(GetBlob(hash, blobs, layers[i].digest).error)
  {
    if i > 0 {
      assert layers[1..][i - 1] == layers[i];
      FirstLayerFails(hash, blobs, layers[1..], i - 1);
    }
  }

  /** Loading fails with the first thing that fails: the index, the manifest, its text, the
      configuration, its text, or a layer. */
  lemma FirstFailure(f: Format, disk: Disk, reference: string)
    ensures var digest := ManifestDigest(disk, reference);
            if digest.Err? then Load(f, disk, reference) == Err(digest.error) else
            var bytes := GetBlob(f.hash, disk.blobs, digest.value);
            if bytes.Err? then Load(f, disk, reference) == Err(bytes.error) else
            var manifest := f.decodeManifest(bytes.value);
            if manifest.None? then Load(f, disk, reference) == Err(BadManifest) else
            var config := GetBlob(f.hash, disk.blobs, manifest.value.config.digest);
            if config.Err? then Load(f, disk, reference) == Err(config.error) else
            if f.decodeConfig(config.value).None? then Load(f, disk, reference) == Err(BadConfig) else
            forall i :: IsFirstFailure(f.hash, disk.blobs, manifest.value.layers, i) ==>
              Load(f, disk, reference) == Err(GetBlob(f.hash, disk.blobs, manifest.value.layers[i].digest).error)
  {
    var digest := ManifestDigest(disk, reference);
    if digest.Ok? && ReadManifest(f, disk.blobs, digest.value).Ok? {
      var layers := ReadManifest(f, disk.blobs, digest.value).value.layers;
      forall i | IsFirstFailure(f.hash, disk.blobs, layers, i)
        ensures ReadLayers(f.hash, disk.blobs, layers) == Err(GetBlob(f.hash, disk.blobs, layers[i].digest).error)
      {
        FirstLayerFails(f.hash, disk.blobs, layers, i);
      }
    }
  }

  ghost predicate IsFirstFailure(hash: Hasher, blobs: map<string, Bytes>, layers: seq<LayerDescriptor>, i: int) {
    && 0 <= i < |layers| && GetBlob(hash, blobs, layers[i].digest).Err?
    && forall j :: 0 <= j < i ==> GetBlob(hash, blobs, layers[j].digest).Ok?
  }

  // ---------------------------------------------------------------- queries, whether or not the module loads

  /** The first layer of the type decides, also by its failure; other layers do not matter. */
  lemma {:induction false} FirstDataIs(hash: Hasher, blobs: map<string, Bytes>, layers: seq<LayerDescriptor>,
                                       mediaType: string, i: nat)
    requires i < |layers| && layers[i].mediaType == mediaType
    requires forall j :: 0 <= j < i ==> layers[j].mediaType != mediaType
    ensures FirstData(hash, blobs, layers, mediaType) ==
              match GetBlob(hash, blobs, layers[i].digest)
              case Ok(data) => Ok(Some(data))
              case Err(e) => Err(e)
  {
    if i > 0 {
      assert layers[1..][i - 1] == layers[i];
      FirstDataIs(hash, blobs, layers[1..], mediaType, i - 1);
    }
  }

  lemma {:induction false} NoDataOfType(hash: Hasher, blobs: map<string, Bytes>, layers: seq<LayerDescriptor>,
                                        mediaType: string)
    requires forall l :: l in layers ==> l.mediaType != mediaType
    ensures FirstData(hash, blobs, layers, mediaType) == Ok(None)
  {
    if layers != [] {
      NoDataOfType(hash, blobs, layers[1..], mediaType);
    }
  }

  /** One more layer: its data is added if it is a source layer, and if that cannot be read the
      query fails, unless it has failed before. */
  lemma {:induction false} SourceDataNext(hash: Hasher, blobs: map<string, Bytes>, layers: seq<LayerDescriptor>,
                                          l: LayerDescriptor)
    ensures SourceData(hash, blobs, []) == Ok([])
    ensures SourceData(hash, blobs, layers + [l]) ==
              match SourceData(hash, blobs, layers)
              case Err(e) => Err(e)
              case Ok(sources) =>
                if l.mediaType != "application/vnd.fabricks.source.v1.tar+gzip" then Ok(sources)
                else
                  match GetBlob(hash, blobs, l.digest)
                  case Err(e) => Err(e)
                  case Ok(data) => Ok(sources + [data])
  {
    hide GetBlob;
    if layers == [] {
      assert layers + [l] == [l] && [l][1..] == [];
      var data := GetBlob(hash, blobs, l.digest);
      if data.Ok? {
        assert [data.value] + [] == [] + [data.value];
      }
    } else {
      assert (layers + [l])[1..] == layers[1..] + [l] && (layers + [l])[0] == layers[0];
      SourceDataNext(hash, blobs, layers[1..], l);
      var first, rest, last := GetBlob(hash, blobs, layers[0].digest), SourceData(hash, blobs, layers[1..]),
                               GetBlob(hash, blobs, l.digest);
      if first.Ok? && rest.Ok? && last.Ok? {
        Reassociate([first.value], rest.value, [last.value]);
      }
    }
  }

  /** The queries fail like loading does on the way to the manifest. */
  lemma QueriesReadManifest(f: Format, disk: Disk, reference: string, mediaType: string)
    ensures match ManifestDigest(disk, reference)
            case Err(e) =>
              LayerByMediaType(f, disk, reference, mediaType) == Err(e) && SourcesOf(f, disk, reference) == Err(e)
            case Ok(digest) =>
              match GetBlob(f.hash, disk.blobs, digest)
              case Err(e) =>
                LayerByMediaType(f, disk, reference, mediaType) == Err(e) && SourcesOf(f, disk, reference) == Err(e)
              case Ok(bytes) =>
                match f.decodeManifest(bytes)
                case None =>
                  && LayerByMediaType(f, disk, reference, mediaType) == Err(BadManifest)
                  && SourcesOf(f, disk, reference) == Err(BadManifest)
                case Some(manifest) =>
                  && LayerByMediaType(f, disk, reference, mediaType)
                       == FirstData(f.hash, disk.blobs, manifest.layers, mediaType)
                  && SourcesOf(f, disk, reference) == SourceData(f.hash, disk.blobs, manifest.layers)
  {
  }
}
