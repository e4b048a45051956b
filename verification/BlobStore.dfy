/** The content-addressed store as a state: blobs named by their hash, and the index. What
    readers see of it, what storing and deleting do to it, and what that preserves.

    Image Layout Specification, sections "Blobs" and "index.json file". */
module BlobStore {
  import opened Digest
  import opened FabricksModules
  import opened ImageIndex
  import opened Wrappers

  const TMP := ".tmp"
  const MAX_I64 := 0x7fff_ffff_ffff_ffff

  ghost predicate IsTmp(name: string) {
    |name| >= |TMP| && name[|name| - |TMP|..] == TMP
  }

  lemma TmpIsSuffix(name: string)
    ensures IsTmp(name) <==> exists stem :: name == stem + ".tmp"
  {
    if IsTmp(name) {
      assert name == name[..|name| - |TMP|] + ".tmp";
    }
  }

  datatype ConfigDescriptor = ConfigDescriptor(mediaType: string, digest: string, size: int)

  datatype LayerDescriptor = LayerDescriptor(
    mediaType: string, digest: string, size: int, annotations: Option<Annotations>)

  datatype Manifest = Manifest(
    schemaVersion: nat,
    mediaType: Option<string>,
    artifactType: Option<string>,
    config: ConfigDescriptor,
    layers: seq<LayerDescriptor>,
    annotations: Option<Annotations>)

  const ARTIFACT_TYPE := "application/vnd.fabricks.module.v1"
  const CONFIG_MEDIA_TYPE := "application/vnd.fabricks.config.v1+toml"

  /** What a path below the blobs directory leads to. */
  datatype Place = BlobFile(name: string) | IndexJson | Elsewhere

  ghost predicate PlainName(name: string) {
    name != "" && name != "." && name != ".." && '/' !in name && '\\' !in name
  }

  /** The hash, the JSON and TOML codecs, and the resolution of paths, as parameters. */
  datatype Format = Format(
    hash: Hasher,
    resolve: string -> Place,
    encodeManifest: Manifest -> Bytes,
    decodeManifest: Bytes -> Option<Manifest>,
    encodeConfig: Fabrickfile -> Option<Bytes>,
    decodeConfig: Bytes -> Option<Fabrickfile>)
  {
    ghost predicate Valid() {
      && HexHash(hash)
      && (forall name :: PlainName(name) ==> resolve(name) == BlobFile(name))
      && (forall m :: decodeManifest(encodeManifest(m)) == Some(m))
      && (forall c :: encodeConfig(c).Some? ==> decodeConfig(encodeConfig(c).value) == Some(c))
    }
  }

  datatype IndexFile = Absent | Corrupt | Index(manifests: Option<seq<IndexEntry>>) {
    function Entries(): seq<IndexEntry> {
      if Index? && manifests.Some? then manifests.value else []
    }
  }

  /** What survives a crash: the files under `blobs/sha256`, and `index.json`. */
  datatype Disk = Disk(blobs: map<string, Bytes>, index: IndexFile)

  datatype StorageError =
    | InvalidDigest(digest: string)
    | MissingBlob(digest: string)
    | VerificationFailed(digest: string)
    | UnreadableIndex
    | NoManifests
    | ReferenceNotFound(reference: string)
    | BadManifest
    | BadConfig
    | ConfigNotSerializable
    | NotRemoved(digest: string)

  datatype Module = Module(config: Fabrickfile, layers: seq<ModuleLayer>)

  // ---------------------------------------------------------------- what readers see

  function GetBlob(hash: Hasher, blobs: map<string, Bytes>, digest: string): Result<Bytes, StorageError> {
    var name := StripPrefix(digest);
    if name.None? then Err(InvalidDigest(digest))
    else if name.value !in blobs then Err(MissingBlob(digest))
    else if VerifyDigest(hash, blobs[name.value], digest).Err? then Err(VerificationFailed(digest))
    else Ok(blobs[name.value])
  }

  function ManifestDigest(disk: Disk, reference: string): Result<string, StorageError> {
    if !disk.index.Index? then Err(UnreadableIndex)
    else if disk.index.manifests.None? then Err(NoManifests)
    else
      var digest := Get(AsMap(disk.index.manifests.value), reference);
      if digest.None? then Err(ReferenceNotFound(reference)) else Ok(digest.value)
  }

  function ReadManifest(f: Format, blobs: map<string, Bytes>, digest: string): Result<Manifest, StorageError> {
    var bytes := GetBlob(f.hash, blobs, digest);
    if bytes.Err? then Err(bytes.error)
    else
      var manifest := f.decodeManifest(bytes.value);
      if manifest.None? then Err(BadManifest) else Ok(manifest.value)
  }

  function ReadConfig(f: Format, blobs: map<string, Bytes>, digest: string): Result<Fabrickfile, StorageError> {
    var bytes := GetBlob(f.hash, blobs, digest);
    if bytes.Err? then Err(bytes.error)
    else
      var config := f.decodeConfig(bytes.value);
      if config.None? then Err(BadConfig) else Ok(config.value)
  }

  /** The layers in order, or the error of the first one that cannot be read. */
  function ReadLayers(hash: Hasher, blobs: map<string, Bytes>, layers: seq<LayerDescriptor>)
    : Result<seq<ModuleLayer>, StorageError>
  {
    if layers == [] then Ok([])
    else
      var data := GetBlob(hash, blobs, layers[0].digest);
      if data.Err? then Err(data.error)
      else
        var rest := ReadLayers(hash, blobs, layers[1..]);
        if rest.Err? then rest
        else Ok([ModuleLayer(layers[0].mediaType, data.value, layers[0].annotations)] + rest.value)
  }

  function ReadModule(f: Format, blobs: map<string, Bytes>, digest: string): Result<Module, StorageError> {
    var manifest := ReadManifest(f, blobs, digest);
    if manifest.Err? then Err(manifest.error)
    else
      var config := ReadConfig(f, blobs, manifest.value.config.digest);
      if config.Err? then Err(config.error)
      else
        var layers := ReadLayers(f.hash, blobs, manifest.value.layers);
        if layers.Err? then Err(layers.error) else Ok(Module(config.value, layers.value))
  }

  /** The module a reference stands for. */
  function Load(f: Format, disk: Disk, reference: string): Result<Module, StorageError> {
    var digest := ManifestDigest(disk, reference);
    if digest.Err? then Err(digest.error) else ReadModule(f, disk.blobs, digest.value)
  }

  // ---------------------------------------------------------------- invariants

  /** Every finished blob holds what its name says. Temporary files may hold anything. */
  ghost predicate Verified(f: Format, blobs: map<string, Bytes>) {
    forall name :: name in blobs ==> IsTmp(name) || f.hash(blobs[name]) == name
  }

  ghost predicate Readable(f: Format, blobs: map<string, Bytes>, digest: string) {
    GetBlob(f.hash, blobs, digest).Ok?
  }

  /** A manifest that can be read, together with its configuration and all its layers. */
  ghost predicate Complete(f: Format, blobs: map<string, Bytes>, digest: string) {
    var manifest := ReadManifest(f, blobs, digest);
    && manifest.Ok?
    && Readable(f, blobs, manifest.value.config.digest)
    && forall l :: l in manifest.value.layers ==> Readable(f, blobs, l.digest)
  }

  /** Blobs match their names, and every indexed digest can be read. */
  ghost predicate Sound(f: Format, disk: Disk) {
    && Verified(f, disk.blobs)
    && forall e :: e in disk.index.Entries() ==> Readable(f, disk.blobs, e.digest)
  }

  /** Moreover, every indexed manifest has all its blobs. */
  ghost predicate Consistent(f: Format, disk: Disk) {
    && Verified(f, disk.blobs)
    && forall e :: e in disk.index.Entries() ==> Complete(f, disk.blobs, e.digest)
  }

  /** A consistent store whose index can be read. */
  ghost predicate Serves(f: Format, disk: Disk) {
    disk.index.Index? && Consistent(f, disk)
  }

  /** Finished blobs stay as they are. */
  ghost predicate Kept(before: map<string, Bytes>, after: map<string, Bytes>) {
    forall n :: n in before && !IsTmp(n) ==> n in after && after[n] == before[n]
  }

  /** Finished blobs are kept, finished blobs that are new hold one of `added` under its
      hash, and the index is untouched. */
  ghost predicate Grown(f: Format, before: Disk, after: Disk, added: set<Bytes>) {
    && after.index == before.index
    && Kept(before.blobs, after.blobs)
    && (forall n :: n in after.blobs && !IsTmp(n) && n !in before.blobs
          ==> after.blobs[n] in added && n == f.hash(after.blobs[n]))
  }

  lemma GrownTransitive(f: Format, a: Disk, b: Disk, c: Disk, x: set<Bytes>, y: set<Bytes>)
    requires Grown(f, a, b, x) && Grown(f, b, c, y)
    ensures Grown(f, a, c, x + y)
  {
  }

  lemma HexIsNotTmp(name: string)
    requires Hex64(name)
    ensures !IsTmp(name)
  {
    assert name[60..][0] == name[60];
  }

  lemma ReadableStays(f: Format, before: map<string, Bytes>, after: map<string, Bytes>, digest: string)
    requires HexHash(f.hash) && Kept(before, after)
    requires Readable(f, before, digest)
    ensures GetBlob(f.hash, after, digest) == GetBlob(f.hash, before, digest)
  {
    var name := StripPrefix(digest).value;
    VerifyIffNamed(f.hash, before[name], digest);
    assert Hex64(f.hash(before[name]));
    HexIsNotTmp(name);
  }

  lemma CompleteStays(f: Format, before: map<string, Bytes>, after: map<string, Bytes>, digest: string)
    requires HexHash(f.hash) && Kept(before, after)
    requires Complete(f, before, digest)
    ensures Complete(f, after, digest)
  {
    ReadableStays(f, before, after, digest);
    var manifest := ReadManifest(f, before, digest).value;
    ReadableStays(f, before, after, manifest.config.digest);
    forall l | l in manifest.layers
      ensures Readable(f, after, l.digest)
    {
      ReadableStays(f, before, after, l.digest);
    }
  }

  /** An index that was fine at one time is fine over all blobs that the store has kept
      and added since; so a lost index can be put back. */
  lemma IndexStaysValid(f: Format, before: Disk, after: map<string, Bytes>)
    requires HexHash(f.hash) && Kept(before.blobs, after) && Verified(f, after)
    ensures Sound(f, before) ==> Sound(f, Disk(after, before.index))
    ensures Consistent(f, before) ==> Consistent(f, Disk(after, before.index))
  {
    forall e | e in before.index.Entries()
      ensures Readable(f, before.blobs, e.digest) ==> Readable(f, after, e.digest)
      ensures Complete(f, before.blobs, e.digest) ==> Complete(f, after, e.digest)
    {
      if Readable(f, before.blobs, e.digest) {
        ReadableStays(f, before.blobs, after, e.digest);
      }
      if Complete(f, before.blobs, e.digest) {
        CompleteStays(f, before.blobs, after, e.digest);
      }
    }
  }

  /** A torn index refers to nothing. */
  lemma TornIsConsistent(f: Format, disk: Disk)
    ensures Sound(f, disk) ==> Sound(f, Disk(disk.blobs, Corrupt))
    ensures Consistent(f, disk) ==> Consistent(f, Disk(disk.blobs, Corrupt))
  {
  }

  /** Storing blobs, finished or not, never breaks what the index refers to. */
  lemma GrowthIsConsistent(f: Format, before: Disk, after: Disk, added: set<Bytes>)
    requires HexHash(f.hash) && Grown(f, before, after, added)
    ensures Sound(f, before) ==> Sound(f, after)
    ensures Consistent(f, before) ==> Consistent(f, after)
  {
    if Verified(f, before.blobs) {
      assert Verified(f, after.blobs);
      IndexStaysValid(f, before, after.blobs);
      assert after == Disk(after.blobs, before.index);
    }
  }

  // ---------------------------------------------------------------- what storing writes

  function Saturate(n: nat): int {
    if n <= MAX_I64 then n else MAX_I64
  }

  function Describe(hash: Hasher, layer: ModuleLayer): LayerDescriptor {
    LayerDescriptor(layer.mediaType, ComputeDigest(hash, layer.data), Saturate(|layer.data|), layer.annotations)
  }

  function Descriptors(hash: Hasher, layers: seq<ModuleLayer>): seq<LayerDescriptor> {
    if layers == [] then [] else [Describe(hash, layers[0])] + Descriptors(hash, layers[1..])
  }

  function ManifestOf(hash: Hasher, configBytes: Bytes, layers: seq<ModuleLayer>, annotations: Annotations): Manifest {
    Manifest(2, Some(MANIFEST_MEDIA_TYPE), Some(ARTIFACT_TYPE),
             ConfigDescriptor(CONFIG_MEDIA_TYPE, ComputeDigest(hash, configBytes), Saturate(|configBytes|)),
             Descriptors(hash, layers), Some(annotations))
  }

  ghost function LayerContents(layers: seq<ModuleLayer>): set<Bytes> {
    set l | l in layers :: l.data
  }

  /** The blobs of a module: its configuration, its layers, and a manifest over them. */
  datatype Parts = Parts(configBytes: Bytes, layers: seq<ModuleLayer>, annotations: Annotations) {
    function ManifestBytes(f: Format): Bytes {
      f.encodeManifest(ManifestOf(f.hash, configBytes, layers, annotations))
    }

    ghost function Contents(f: Format): set<Bytes> {
      {configBytes, ManifestBytes(f)} + LayerContents(layers)
    }
  }

  ghost predicate Holds(f: Format, blobs: map<string, Bytes>, contents: set<Bytes>) {
    forall c :: c in contents ==> f.hash(c) in blobs
  }

  lemma HoldsStays(f: Format, before: map<string, Bytes>, after: map<string, Bytes>, contents: set<Bytes>)
    requires HexHash(f.hash) && Kept(before, after) && Holds(f, before, contents)
    ensures Holds(f, after, contents)
  {
    forall c | c in contents
      ensures f.hash(c) in after
    {
      assert Hex64(f.hash(c));
      HexIsNotTmp(f.hash(c));
    }
  }

  /** The disk after a module was stored under a reference. */
  ghost predicate Stored(f: Format, before: Disk, after: Disk, parts: Parts, reference: string) {
    var manifest := parts.ManifestBytes(f);
    && Grown(f, before, Disk(after.blobs, before.index), parts.Contents(f))
    && Holds(f, after.blobs, parts.Contents(f))
    && after.index == Index(Some(Upsert(before.index.Entries(), reference,
                                        ComputeDigest(f.hash, manifest), Saturate(|manifest|))))
  }

  /** Nothing else in the universe has the hash of `c`. */
  ghost predicate Sole(hash: Hasher, universe: set<Bytes>, c: Bytes) {
    forall x :: x in universe && hash(x) == hash(c) ==> x == c
  }

  ghost function FinishedContents(disk: Disk): set<Bytes> {
    set n | n in disk.blobs && !IsTmp(n) :: disk.blobs[n]
  }

  /** Whatever is stored under its hash can be read, be it the content or, in a collision,
      what was there before. */
  lemma NamedIsReadable(f: Format, blobs: map<string, Bytes>, c: Bytes)
    requires HexHash(f.hash) && Verified(f, blobs) && f.hash(c) in blobs
    ensures Readable(f, blobs, ComputeDigest(f.hash, c))
  {
    var name := f.hash(c);
    StripsOwnPrefix(name);
    assert Hex64(name);
    HexIsNotTmp(name);
  }

  lemma StoredBlobReadsBack(f: Format, before: Disk, after: Disk, parts: Parts, reference: string, c: Bytes)
    requires HexHash(f.hash) && Verified(f, before.blobs)
    requires Stored(f, before, after, parts, reference) && c in parts.Contents(f)
    requires Sole(f.hash, FinishedContents(before) + parts.Contents(f), c)
    ensures GetBlob(f.hash, after.blobs, ComputeDigest(f.hash, c)) == Ok(c)
  {
    var name := f.hash(c);
    StripsOwnPrefix(name);
    assert Hex64(name);
    HexIsNotTmp(name);
    assert after.blobs[name] in FinishedContents(before) + parts.Contents(f);
  }

  lemma {:induction false} LayersReadBack(f: Format, blobs: map<string, Bytes>, layers: seq<ModuleLayer>)
    requires forall l :: l in layers ==> GetBlob(f.hash, blobs, ComputeDigest(f.hash, l.data)) == Ok(l.data)
    ensures ReadLayers(f.hash, blobs, Descriptors(f.hash, layers)) == Ok(layers)
  {
    if layers != [] {
      LayersReadBack(f, blobs, layers[1..]);
      assert Descriptors(f.hash, layers)[1..] == Descriptors(f.hash, layers[1..]);
      assert layers[0] in layers && layers == [layers[0]] + layers[1..];
    }
  }

  /** If all its parts read back, a module reads back: same configuration, same layers in
      order. */
  lemma PartsReadBack(f: Format, blobs: map<string, Bytes>, config: Fabrickfile, parts: Parts)
    requires f.Valid() && f.encodeConfig(config) == Some(parts.configBytes)
    requires forall c :: c in parts.Contents(f) ==> GetBlob(f.hash, blobs, ComputeDigest(f.hash, c)) == Ok(c)
    ensures ReadModule(f, blobs, ComputeDigest(f.hash, parts.ManifestBytes(f))) == Ok(Module(config, parts.layers))
  {
    assert parts.ManifestBytes(f) in parts.Contents(f) && parts.configBytes in parts.Contents(f);
    assert forall l :: l in parts.layers ==> l.data in parts.Contents(f);
    LayersReadBack(f, blobs, parts.layers);
  }

  /** A stored module loads back as it was. */
  lemma LoadAfterStore(f: Format, before: Disk, after: Disk, config: Fabrickfile, parts: Parts, reference: string)
    requires f.Valid() && Verified(f, before.blobs)
    requires f.encodeConfig(config) == Some(parts.configBytes)
    requires Stored(f, before, after, parts, reference)
    requires forall c :: c in parts.Contents(f) ==> Sole(f.hash, FinishedContents(before) + parts.Contents(f), c)
    ensures Load(f, after, reference) == Ok(Module(config, parts.layers))
  {
    var manifest := parts.ManifestBytes(f);
    UpsertIsMapUpdate(before.index.Entries(), reference, ComputeDigest(f.hash, manifest), Saturate(|manifest|));
    forall c | c in parts.Contents(f)
      ensures GetBlob(f.hash, after.blobs, ComputeDigest(f.hash, c)) == Ok(c)
    {
      StoredBlobReadsBack(f, before, after, parts, reference, c);
    }
    PartsReadBack(f, after.blobs, config, parts);
  }

  lemma {:induction false} ReadLayersStays(f: Format, before: map<string, Bytes>, after: map<string, Bytes>,
                                           layers: seq<LayerDescriptor>)
    requires HexHash(f.hash) && Kept(before, after)
    requires ReadLayers(f.hash, before, layers).Ok?
    ensures ReadLayers(f.hash, after, layers) == ReadLayers(f.hash, before, layers)
  {
    if layers != [] {
      ReadableStays(f, before, after, layers[0].digest);
      ReadLayersStays(f, before, after, layers[1..]);
    }
  }

  lemma ModuleStays(f: Format, before: map<string, Bytes>, after: map<string, Bytes>, digest: string)
    requires HexHash(f.hash) && Kept(before, after) && ReadModule(f, before, digest).Ok?
    ensures ReadModule(f, after, digest) == ReadModule(f, before, digest)
  {
    ReadableStays(f, before, after, digest);
    var manifest := ReadManifest(f, before, digest).value;
    ReadableStays(f, before, after, manifest.config.digest);
    ReadLayersStays(f, before, after, manifest.layers);
  }

  /** Every other reference still loads exactly what it loaded before, collisions or not. */
  lemma OthersLoadAsBefore(f: Format, before: Disk, after: Disk, parts: Parts, reference: string, other: string)
    requires HexHash(f.hash) && Stored(f, before, after, parts, reference)
    requires other != reference && Load(f, before, other).Ok?
    ensures Load(f, after, other) == Load(f, before, other)
  {
    var manifest := parts.ManifestBytes(f);
    UpsertIsMapUpdate(before.index.Entries(), reference, ComputeDigest(f.hash, manifest), Saturate(|manifest|));
    var digest := ManifestDigest(before, other).value;
    assert ManifestDigest(after, other) == Ok(digest);
    ModuleStays(f, before.blobs, after.blobs, digest);
  }

  /** A torn index hides every module, and putting the earlier index back brings back each
      of them, whatever was stored in between. */
  lemma TornIndexRecovers(f: Format, before: Disk, after: Disk, reference: string)
    requires HexHash(f.hash) && Kept(before.blobs, after.blobs) && after.index == Corrupt
    requires Load(f, before, reference).Ok?
    ensures Load(f, after, reference) == Err(UnreadableIndex)
    ensures Load(f, Disk(after.blobs, before.index), reference) == Load(f, before, reference)
  {
    ModuleStays(f, before.blobs, after.blobs, ManifestDigest(before, reference).value);
  }

  /** For any hash at all: after a module was stored, blobs match their names, and every
      indexed digest and every part of the module can be read. */
  lemma StoredIsSound(f: Format, before: Disk, after: Disk, parts: Parts, reference: string)
    requires HexHash(f.hash) && Sound(f, before)
    requires Stored(f, before, after, parts, reference)
    ensures Sound(f, after)
    ensures forall c :: c in parts.Contents(f) ==> Readable(f, after.blobs, ComputeDigest(f.hash, c))
  {
    var grown := Disk(after.blobs, before.index);
    GrowthIsConsistent(f, before, grown, parts.Contents(f));
    forall c | c in parts.Contents(f)
      ensures Readable(f, after.blobs, ComputeDigest(f.hash, c))
    {
      NamedIsReadable(f, after.blobs, c);
    }
    WithoutMap(before.index.Entries(), reference);
  }

  lemma {:induction false} DescribedLayers(hash: Hasher, layers: seq<ModuleLayer>)
    ensures forall d :: d in Descriptors(hash, layers) ==>
              exists l :: l in layers && d.digest == ComputeDigest(hash, l.data)
  {
    if layers != [] {
      DescribedLayers(hash, layers[1..]);
      assert layers[0] in layers && forall l :: l in layers[1..] ==> l in layers;
    }
  }

  /** The index is written last, so the new entry's manifest is already complete. All that
      matters is that nothing else has the manifest's hash. */
  lemma StoredIsConsistent(f: Format, before: Disk, after: Disk, parts: Parts, reference: string)
    requires f.Valid() && Consistent(f, before)
    requires Stored(f, before, after, parts, reference)
    requires Sole(f.hash, FinishedContents(before) + parts.Contents(f), parts.ManifestBytes(f))
    ensures Consistent(f, after)
  {
    var manifest := parts.ManifestBytes(f);
    StoredIsSound(f, before, after, parts, reference);
    IndexStaysValid(f, before, after.blobs);
    StoredBlobReadsBack(f, before, after, parts, reference, manifest);
    DescribedLayers(f.hash, parts.layers);
    assert Complete(f, after.blobs, ComputeDigest(f.hash, manifest));
    WithoutMap(before.index.Entries(), reference);
  }

  // ---------------------------------------------------------------- queries agree with loading

  function FirstData(hash: Hasher, blobs: map<string, Bytes>, layers: seq<LayerDescriptor>, mediaType: string)
    : Result<Option<Bytes>, StorageError>
  {
    if layers == [] then Ok(None)
    else if layers[0].mediaType == mediaType then
      var data := GetBlob(hash, blobs, layers[0].digest);
      if data.Err? then Err(data.error) else Ok(Some(data.value))
    else FirstData(hash, blobs, layers[1..], mediaType)
  }

  function SourceData(hash: Hasher, blobs: map<string, Bytes>, layers: seq<LayerDescriptor>)
    : Result<seq<Bytes>, StorageError>
  {
    if layers == [] then Ok([])
    else if layers[0].mediaType != SOURCE_LAYER then SourceData(hash, blobs, layers[1..])
    else
      var data := GetBlob(hash, blobs, layers[0].digest);
      if data.Err? then Err(data.error)
      else
        var rest := SourceData(hash, blobs, layers[1..]);
        if rest.Err? then rest else Ok([data.value] + rest.value)
  }

  function Data(layers: seq<ModuleLayer>): seq<Bytes> {
    if layers == [] then [] else [layers[0].data] + Data(layers[1..])
  }

  lemma {:induction false} LayerQueriesAgree(hash: Hasher, blobs: map<string, Bytes>,
                                             layers: seq<LayerDescriptor>, mediaType: string)
    requires ReadLayers(hash, blobs, layers).Ok?
    ensures var loaded := ReadLayers(hash, blobs, layers).value;
            var first := FirstOfType(loaded, mediaType);
            && FirstData(hash, blobs, layers, mediaType) == Ok(if first.Some? then Some(first.value.data) else None)
            && SourceData(hash, blobs, layers) == Ok(Data(SourceLayers(loaded)))
  {
    if layers != [] {
      LayerQueriesAgree(hash, blobs, layers[1..], mediaType);
      var loaded := ReadLayers(hash, blobs, layers).value;
      var rest := ReadLayers(hash, blobs, layers[1..]).value;
      assert loaded[1..] == rest;
      if layers[0].mediaType == SOURCE_LAYER {
        assert SourceLayers(loaded)[1..] == SourceLayers(rest);
      } else {
        assert SourceLayers(loaded) == SourceLayers(rest);
      }
    }
  }

  function LayerByMediaType(f: Format, disk: Disk, reference: string, mediaType: string)
    : Result<Option<Bytes>, StorageError>
  {
    var digest := ManifestDigest(disk, reference);
    if digest.Err? then Err(digest.error)
    else
      var manifest := ReadManifest(f, disk.blobs, digest.value);
      if manifest.Err? then Err(manifest.error)
      else FirstData(f.hash, disk.blobs, manifest.value.layers, mediaType)
  }

  function SourcesOf(f: Format, disk: Disk, reference: string): Result<seq<Bytes>, StorageError> {
    var digest := ManifestDigest(disk, reference);
    if digest.Err? then Err(digest.error)
    else
      var manifest := ReadManifest(f, disk.blobs, digest.value);
      if manifest.Err? then Err(manifest.error) else SourceData(f.hash, disk.blobs, manifest.value.layers)
  }

  /** Whatever loads, the direct queries see the same: the first layer of any media type
      (runtime and code among them) and the source layers in order. */
  lemma QueriesAgreeWithLoad(f: Format, disk: Disk, reference: string, mediaType: string)
    requires Load(f, disk, reference).Ok?
    ensures var loaded := Load(f, disk, reference).value.layers;
            var first := FirstOfType(loaded, mediaType);
            && LayerByMediaType(f, disk, reference, mediaType)
                 == Ok(if first.Some? then Some(first.value.data) else None)
            && SourcesOf(f, disk, reference) == Ok(Data(SourceLayers(loaded)))
  {
    var manifest := ReadManifest(f, disk.blobs, ManifestDigest(disk, reference).value).value;
    LayerQueriesAgree(f.hash, disk.blobs, manifest.layers, mediaType);
  }

  // ---------------------------------------------------------------- deletion

  ghost predicate Mentions(f: Format, blobs: map<string, Bytes>, indexed: string, digest: string) {
    || indexed == digest
    || (var manifest := ReadManifest(f, blobs, indexed);
        manifest.Ok? && (manifest.value.config.digest == digest
                         || exists l :: l in manifest.value.layers && l.digest == digest))
  }

  ghost predicate Referenced(f: Format, disk: Disk, digest: string) {
    exists e :: e in disk.index.Entries() && Mentions(f, disk.blobs, e.digest, digest)
  }

  /** The disk after what a digest's path leads to was removed. */
  function Deleted(f: Format, disk: Disk, digest: string): Disk {
    var name := StripPrefix(digest);
    if name.None? then disk
    else
      match f.resolve(name.value)
      case BlobFile(n) => Disk(disk.blobs - {n}, disk.index)
      case IndexJson => Disk(disk.blobs, Absent)
      case Elsewhere => disk
  }

  /** After a deletion the store still serves exactly when the digest led to a blob that no
      indexed manifest is or mentions, or out of the store. */
  lemma DeleteServesIff(f: Format, before: Disk, name: string)
    requires Serves(f, before)
    ensures Serves(f, Deleted(f, before, PREFIX + name)) <==>
            match f.resolve(name)
            case BlobFile(n) => !Referenced(f, before, PREFIX + n)
            case IndexJson => false
            case Elsewhere => true
  {
    StripsOwnPrefix(name);
  }

  /** A store of one module without layers, and two deletions that break it: of the manifest,
      and of a path that leads to the index. */
  lemma DeletionExamples(f: Format, configBytes: Bytes, annotations: Annotations, reference: string, path: string)
    requires f.Valid() && f.resolve(path) == IndexJson
    requires f.hash(configBytes) != f.hash(Parts(configBytes, [], annotations).ManifestBytes(f))
    ensures var manifest := Parts(configBytes, [], annotations).ManifestBytes(f);
            var digest := ComputeDigest(f.hash, manifest);
            var disk := Disk(map[f.hash(configBytes) := configBytes, f.hash(manifest) := manifest],
                             Index(Some([NewEntry(reference, digest, Saturate(|manifest|))])));
            && Serves(f, disk)
            && Load(f, Deleted(f, disk, digest), reference) == Err(MissingBlob(digest))
            && !Serves(f, Deleted(f, disk, digest))
            && Load(f, Deleted(f, disk, PREFIX + path), reference) == Err(UnreadableIndex)
  {
    var manifest := Parts(configBytes, [], annotations).ManifestBytes(f);
    var digest := ComputeDigest(f.hash, manifest);
    var entries := [NewEntry(reference, digest, Saturate(|manifest|))];
    var blobs := map[f.hash(configBytes) := configBytes, f.hash(manifest) := manifest];
    var disk := Disk(blobs, Index(Some(entries)));
    StripsOwnPrefix(path);
    StripsOwnPrefix(f.hash(manifest));
    NamedIsReadable(f, blobs, configBytes);
    NamedIsReadable(f, blobs, manifest);
    HexIsPlain(f.hash(manifest));
    assert AsMap(entries) == map[reference := digest];
    assert Complete(f, blobs, digest);
    assert Referenced(f, disk, digest) by {
      assert entries[0] in disk.index.Entries() && Mentions(f, blobs, entries[0].digest, digest);
    }
    DeleteServesIff(f, disk, f.hash(manifest));
  }

  lemma HexIsPlain(name: string)
    requires Hex64(name)
    ensures PlainName(name)
  {
  }
}
