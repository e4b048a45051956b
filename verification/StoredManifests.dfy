/** What the store writes down about a module: its manifest and its entry in the index. */
module StoredManifests {
  import opened BlobStore
  import opened Digest
  import opened FabricksModules
  import opened ImageIndex
  import opened Text
  import opened Wrappers

  /** A length as a signed 64-bit field. */
  ghost predicate IsSize(size: int, length: nat) {
    size == if length <= 9223372036854775807 then length else 9223372036854775807
  }

  ghost predicate DescribesLayer(f: Format, d: LayerDescriptor, layer: ModuleLayer) {
    && d.mediaType == layer.mediaType && d.annotations == layer.annotations
    && d.digest == "sha256:" + f.hash(layer.data) && IsSize(d.size, |layer.data|)
  }

  /** A manifest of a module: its configuration and all its layers in order, by type, digest,
      size and annotations, and the annotations of the module itself. */
  ghost predicate DescribesModule(f: Format, m: Manifest, config: Fabrickfile, configBytes: Bytes,
                                  layers: seq<ModuleLayer>, custom: Annotations)
  {
    && m.schemaVersion == 2
    && m.mediaType == Some("application/vnd.oci.image.manifest.v1+json")
    && m.artifactType == Some("application/vnd.fabricks.module.v1")
    && m.config.mediaType == "application/vnd.fabricks.config.v1+toml"
    && m.config.digest == "sha256:" + f.hash(configBytes) && IsSize(m.config.size, |configBytes|)
    && |m.layers| == |layers|
    && (forall i :: 0 <= i < |layers| ==> DescribesLayer(f, m.layers[i], layers[i]))
    && m.annotations.Some? && Annotates(m.annotations.value, config, custom)
  }

  /** The manifest is stored, and the last entry of the index names it for the reference. */
  ghost predicate StoredAs(f: Format, disk: Disk, m: Manifest, reference: string, digest: string) {
    var bytes, entries := f.encodeManifest(m), disk.index.Entries();
    && digest == "sha256:" + f.hash(bytes) && f.hash(bytes) in disk.blobs
    && entries != []
    && var e := entries[|entries| - 1];
       && e.mediaType == "application/vnd.oci.image.manifest.v1+json" && e.digest == digest && IsSize(e.size, |bytes|)
       && e.annotations == Some(map["org.opencontainers.image.ref.name" := reference])
  }

  lemma {:induction false} DescriptorAt(f: Format, layers: seq<ModuleLayer>, i: nat)
    requires i < |layers|
    ensures |Descriptors(f.hash, layers)| == |layers|
    ensures DescribesLayer(f, Descriptors(f.hash, layers)[i], layers[i])
  {
    var rest := layers[1..];
    assert Descriptors(f.hash, layers) == [Describe(f.hash, layers[0])] + Descriptors(f.hash, rest);
    if i > 0 {
      DescriptorAt(f, rest, i - 1);
    } else if rest != [] {
      DescriptorAt(f, rest, 0);
    }
  }

  lemma ManifestDescribes(f: Format, config: Fabrickfile, configBytes: Bytes, layers: seq<ModuleLayer>,
                          custom: Annotations)
    ensures DescribesModule(f, ManifestOf(f.hash, configBytes, layers, BuildAnnotations(config, custom)),
                            config, configBytes, layers, custom)
  {
    AnnotationsByKey(config, custom);
    if layers != [] {
      DescriptorAt(f, layers, 0);
    }
    forall i | 0 <= i < |layers|
      ensures DescribesLayer(f, Descriptors(f.hash, layers)[i], layers[i])
    {
      DescriptorAt(f, layers, i);
    }
  }

  /** A stored module is stored as described. */
  lemma StoredIsDescribed(f: Format, before: Disk, after: Disk, config: Fabrickfile, configBytes: Bytes,
                          layers: seq<ModuleLayer>, custom: Annotations, reference: string)
    requires Stored(f, before, after, Parts(configBytes, layers, BuildAnnotations(config, custom)), reference)
    ensures var m := ManifestOf(f.hash, configBytes, layers, BuildAnnotations(config, custom));
            && StoredAs(f, after, m, reference, ComputeDigest(f.hash, f.encodeManifest(m)))
            && DescribesModule(f, m, config, configBytes, layers, custom)
  {
    var parts := Parts(configBytes, layers, BuildAnnotations(config, custom));
    var bytes := parts.ManifestBytes(f);
    ManifestDescribes(f, config, configBytes, layers, custom);
    assert bytes in parts.Contents(f);
    UpsertAppends(before.index.Entries(), reference, ComputeDigest(f.hash, bytes), Saturate(|bytes|));
  }

  /** The manifest reads back, unless something else has its hash. */
  lemma ManifestReadsBack(f: Format, disk: Disk, m: Manifest, reference: string, digest: string)
    requires f.Valid() && Verified(f, disk.blobs) && StoredAs(f, disk, m, reference, digest)
    requires Sole(f.hash, FinishedContents(disk), f.encodeManifest(m))
    ensures ReadManifest(f, disk.blobs, digest) == Ok(m)
  {
    var name := f.hash(f.encodeManifest(m));
    assert Hex64(name);
    HexIsNotTmp(name);
    PrefixIsStripped(digest, name);
    VerifyIffNamed(f.hash, disk.blobs[name], digest);
    assert disk.blobs[name] in FinishedContents(disk);
  }

  /** From the annotations of the manifest alone, the annotated part of the configuration can be
      recovered under the conditions of `FallbackRecoversIff`. */
  lemma ManifestRecoversIff(f: Format, m: Manifest, config: Fabrickfile, configBytes: Bytes,
                            layers: seq<ModuleLayer>, custom: Annotations)
    requires DescribesModule(f, m, config, configBytes, layers, custom)
    ensures ParseConfig(None, m.annotations) == Ok(Annotated(config))
            <==> (&& AuthorsSurvive(config.info.authors)
                  && NotSpoofed(config.info.authors, "org.opencontainers.image.authors", custom)
                  && NotSpoofed(config.info.description, "org.opencontainers.image.description", custom)
                  && NotSpoofed(config.info.license, "org.opencontainers.image.licenses", custom)
                  && NotSpoofed(config.info.repository, "org.opencontainers.image.source", custom))
  {
    AnnotationsByKey(config, custom);
    AnnotatesDetermines(m.annotations.value, BuildAnnotations(config, custom), config, custom);
    FallbackRecoversIff(config, custom);
  }
}
