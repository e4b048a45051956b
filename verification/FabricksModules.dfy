/** A module for OCI distribution: its configuration, its ordered layers and the manifest
    annotations that describe it. */
module FabricksModules {
  import opened Text
  import opened Wrappers

  newtype byte = x: int | 0 <= x < 256
  type Bytes = seq<byte>
  type Annotations = map<string, string>

  const WASM_LAYER := "application/vnd.fabricks.module.v1+wasm"
  const RUNTIME_LAYER := "application/vnd.fabricks.runtime.v1+wasm"
  const SOURCE_LAYER := "application/vnd.fabricks.source.v1.tar+gzip"

  const FABRICK_VERSION_KEY := "dev.fabricks.version"
  const NAME_KEY := "dev.fabricks.name"
  const VERSION_KEY := "dev.fabricks.module.version"
  const DESCRIPTION_KEY := "org.opencontainers.image.description"
  const AUTHORS_KEY := "org.opencontainers.image.authors"
  const LICENSE_KEY := "org.opencontainers.image.licenses"
  const SOURCE_KEY := "org.opencontainers.image.source"

  datatype ServiceType = Command | Http | Tcp

  datatype Info = Info(
    name: string,
    version: string,
    serviceType: ServiceType,
    description: Option<string>,
    authors: Option<seq<string>>,
    license: Option<string>,
    homepage: Option<string>,
    repository: Option<string>,
    documentation: Option<string>,
    keywords: Option<seq<string>>)

  /** The remaining sections of a Fabrickfile, which no operation here looks into. */
  datatype Sections = NoSections | Sections(toml: string)

  datatype Fabrickfile = Fabrickfile(fabrickVersion: string, info: Info, sections: Sections)

  datatype ModuleLayer = ModuleLayer(mediaType: string, data: Bytes, annotations: Option<Annotations>)

  // ---------------------------------------------------------------- layers

  function FirstOfType(layers: seq<ModuleLayer>, mediaType: string): Option<ModuleLayer> {
    if layers == [] then None
    else if layers[0].mediaType == mediaType then Some(layers[0])
    else FirstOfType(layers[1..], mediaType)
  }

  /** The user's code: the first module layer, or else the last layer. */
  function WasmBytes(layers: seq<ModuleLayer>): Bytes {
    var found := FirstOfType(layers, WASM_LAYER);
    if found.Some? then found.value.data
    else if layers == [] then [] else layers[|layers| - 1].data
  }

  function SourceLayers(layers: seq<ModuleLayer>): seq<ModuleLayer> {
    if layers == [] then []
    else (if layers[0].mediaType == SOURCE_LAYER then [layers[0]] else []) + SourceLayers(layers[1..])
  }

  function TotalSize(layers: seq<ModuleLayer>): nat {
    if layers == [] then 0 else |layers[0].data| + TotalSize(layers[1..])
  }

  function Layer(mediaType: string, data: Bytes): ModuleLayer {
    ModuleLayer(mediaType, data, None)
  }

  datatype BuildStep = AddRuntime(wasm: Bytes) | AddSource(tar: Bytes)

  function Build(layers: seq<ModuleLayer>, step: BuildStep): seq<ModuleLayer> {
    match step
    case AddRuntime(wasm) => [Layer(RUNTIME_LAYER, wasm)] + layers
    case AddSource(tar) => layers + [Layer(SOURCE_LAYER, tar)]
  }

  class FabricksModule {
    const config: Fabrickfile
    var layers: seq<ModuleLayer>
    var annotations: Annotations

    constructor New(config: Fabrickfile, wasm: Bytes)
      ensures this.config == config && annotations == map[]
      ensures layers == [ModuleLayer("application/vnd.fabricks.module.v1+wasm", wasm, None)]
    {
      this.config, layers, annotations := config, [Layer(WASM_LAYER, wasm)], map[];
    }

    constructor NewInterpreted(config: Fabrickfile, runtimeWasm: Bytes, sourceTar: Bytes)
      ensures this.config == config && annotations == map[]
      ensures layers == BuildAll([], [AddRuntime(runtimeWasm), AddSource(sourceTar)])
                     == [ModuleLayer("application/vnd.fabricks.runtime.v1+wasm", runtimeWasm, None),
                         ModuleLayer("application/vnd.fabricks.source.v1.tar+gzip", sourceTar, None)]
    {
      this.config, annotations := config, map[];
      layers := [Layer(RUNTIME_LAYER, runtimeWasm), Layer(SOURCE_LAYER, sourceTar)];
      new;
      InterpretedStart(runtimeWasm, sourceTar);
    }

    constructor FromLayers(config: Fabrickfile, layers: seq<ModuleLayer>)
      ensures this.config == config && this.layers == layers && annotations == map[]
    {
      this.config, this.layers, annotations := config, layers, map[];
    }

    method WithRuntimeLayer(wasm: Bytes)
      modifies this`layers
      ensures layers == Build(old(layers), AddRuntime(wasm))
                     == [ModuleLayer("application/vnd.fabricks.runtime.v1+wasm", wasm, None)] + old(layers)
    {
      layers := [Layer(RUNTIME_LAYER, wasm)] + layers;
    }

    method WithSourceLayer(tar: Bytes)
      modifies this`layers
      ensures layers == Build(old(layers), AddSource(tar))
                     == old(layers) + [ModuleLayer("application/vnd.fabricks.source.v1.tar+gzip", tar, None)]
    {
      layers := layers + [Layer(SOURCE_LAYER, tar)];
    }

    method WithAnnotation(key: string, value: string)
      modifies this`annotations
      ensures annotations == old(annotations)[key := value]
    {
      annotations := annotations[key := value];
    }
  }

  function BuildAll(layers: seq<ModuleLayer>, steps: seq<BuildStep>): seq<ModuleLayer> {
    if steps == [] then layers else Build(BuildAll(layers, steps[..|steps| - 1]), steps[|steps| - 1])
  }

  lemma InterpretedStart(wasm: Bytes, tar: Bytes)
    ensures BuildAll([], [AddRuntime(wasm), AddSource(tar)]) == [Layer(RUNTIME_LAYER, wasm), Layer(SOURCE_LAYER, tar)]
  {
    var steps := [AddRuntime(wasm), AddSource(tar)];
    var first := [AddRuntime(wasm)];
    assert steps[..1] == first && first[..0] == [];
    assert BuildAll([], first) == [Layer(RUNTIME_LAYER, wasm)] + [];
    assert BuildAll([], steps) == Build(BuildAll([], first), steps[1]);
  }

  /** The runtime layers added, latest first: each one goes to the front. */
  function Runtimes(steps: seq<BuildStep>): seq<ModuleLayer> {
    if steps == [] then []
    else
      var last := steps[|steps| - 1];
      (if last.AddRuntime? then [Layer(RUNTIME_LAYER, last.wasm)] else []) + Runtimes(steps[..|steps| - 1])
  }

  /** The source layers added, in the order added. */
  function Sources(steps: seq<BuildStep>): seq<ModuleLayer> {
    if steps == [] then []
    else
      var last := steps[|steps| - 1];
      Sources(steps[..|steps| - 1]) + (if last.AddSource? then [Layer(SOURCE_LAYER, last.tar)] else [])
  }

  function AddedBytes(steps: seq<BuildStep>): nat {
    if steps == [] then 0
    else
      var last := steps[|steps| - 1];
      AddedBytes(steps[..|steps| - 1]) + match last { case AddRuntime(wasm) => |wasm| case AddSource(tar) => |tar| }
  }

  lemma {:induction false} BuildShape(core: seq<ModuleLayer>, steps: seq<BuildStep>)
    ensures BuildAll(core, steps) == Runtimes(steps) + core + Sources(steps)
  {
    if steps != [] {
      BuildShape(core, steps[..|steps| - 1]);
    }
  }

  lemma {:induction false} TotalSizeConcat(a: seq<ModuleLayer>, b: seq<ModuleLayer>)
    ensures TotalSize(a + b) == TotalSize(a) + TotalSize(b)
  {
    if a == [] {
      assert a + b == b;
    } else {
      assert (a + b)[1..] == a[1..] + b;
      TotalSizeConcat(a[1..], b);
    }
  }

  /** Every layer counts with all its bytes. */
  lemma SizeSums(layers: seq<ModuleLayer>, l: ModuleLayer)
    ensures TotalSize([]) == 0
    ensures TotalSize(layers + [l]) == TotalSize(layers) + |l.data|
  {
    TotalSizeConcat(layers, [l]);
    assert [l][1..] == [] && TotalSize([l]) == |l.data| + TotalSize([]);
  }

  lemma {:induction false} SourceLayersConcat(a: seq<ModuleLayer>, b: seq<ModuleLayer>)
    ensures SourceLayers(a + b) == SourceLayers(a) + SourceLayers(b)
  {
    if a == [] {
      assert a + b == b;
    } else {
      assert (a + b)[1..] == a[1..] + b;
      SourceLayersConcat(a[1..], b);
      var head := if a[0].mediaType == SOURCE_LAYER then [a[0]] else [];
      assert head + (SourceLayers(a[1..]) + SourceLayers(b)) == head + SourceLayers(a[1..]) + SourceLayers(b);
    }
  }

  lemma MediaTypesDiffer()
    ensures WASM_LAYER != RUNTIME_LAYER && WASM_LAYER != SOURCE_LAYER && RUNTIME_LAYER != SOURCE_LAYER
  {
    assert |WASM_LAYER| == 39 && |RUNTIME_LAYER| == 40 && |SOURCE_LAYER| == 43;
  }

  lemma {:induction false} RuntimesAreRuntimes(steps: seq<BuildStep>)
    ensures forall l :: l in Runtimes(steps) ==> l.mediaType == RUNTIME_LAYER
  {
    if steps != [] {
      RuntimesAreRuntimes(steps[..|steps| - 1]);
    }
  }

  lemma {:induction false} FirstSkips(a: seq<ModuleLayer>, b: seq<ModuleLayer>, mediaType: string)
    requires forall l :: l in a ==> l.mediaType != mediaType
    ensures FirstOfType(a + b, mediaType) == FirstOfType(b, mediaType)
  {
    if a == [] {
      assert a + b == b;
    } else {
      assert (a + b)[1..] == a[1..] + b;
      FirstSkips(a[1..], b, mediaType);
    }
  }

  lemma {:induction false} NoSourceLayers(layers: seq<ModuleLayer>)
    requires forall l :: l in layers ==> l.mediaType != SOURCE_LAYER
    ensures SourceLayers(layers) == []
  {
    if layers != [] {
      NoSourceLayers(layers[1..]);
    }
  }

  lemma {:induction false} SourcesAreSources(steps: seq<BuildStep>)
    ensures SourceLayers(Sources(steps)) == Sources(steps)
  {
    if steps != [] {
      SourcesAreSources(steps[..|steps| - 1]);
      var last := steps[|steps| - 1];
      if last.AddSource? {
        SourceLayersConcat(Sources(steps[..|steps| - 1]), [Layer(SOURCE_LAYER, last.tar)]);
      } else {
        assert Sources(steps) == Sources(steps[..|steps| - 1]);
      }
    }
  }

  lemma {:induction false} SizeOfAdded(steps: seq<BuildStep>)
    ensures TotalSize(Runtimes(steps)) + TotalSize(Sources(steps)) == AddedBytes(steps)
  {
    if steps != [] {
      var init, last := steps[..|steps| - 1], steps[|steps| - 1];
      SizeOfAdded(init);
      match last {
        case AddRuntime(wasm) => TotalSizeConcat([Layer(RUNTIME_LAYER, wasm)], Runtimes(init));
          assert Sources(steps) == Sources(init);
        case AddSource(tar) => TotalSizeConcat(Sources(init), [Layer(SOURCE_LAYER, tar)]);
          assert Runtimes(steps) == Runtimes(init);
      }
    }
  }

  /** Every module starts from its own code (compiled) or from nothing (interpreted, whose
      constructor adds a runtime and a source archive). Whatever is added then, runtime
      layers come first and source layers last, in the order added, the size is the sum of
      all parts, and a compiled module's code stays what its users get. */
  lemma ModuleShape(core: seq<ModuleLayer>, steps: seq<BuildStep>)
    requires core == [] || exists wasm :: core == [Layer(WASM_LAYER, wasm)]
    ensures var layers := BuildAll(core, steps);
            && layers == Runtimes(steps) + core + Sources(steps)
            && SourceLayers(layers) == Sources(steps)
            && TotalSize(layers) == TotalSize(core) + AddedBytes(steps)
            && (core != [] ==> WasmBytes(layers) == core[0].data)
  {
    BuildShape(core, steps);
    SourcesOfShape(core, steps);
    SizeOfShape(core, steps);
    if core != [] {
      CodeOfShape(core[0], steps);
    }
  }

  lemma SourcesOfShape(core: seq<ModuleLayer>, steps: seq<BuildStep>)
    requires forall l :: l in core ==> l.mediaType == WASM_LAYER
    ensures SourceLayers(Runtimes(steps) + core + Sources(steps)) == Sources(steps)
  {
    MediaTypesDiffer();
    RuntimesAreRuntimes(steps);
    NoSourceLayers(Runtimes(steps) + core);
    SourceLayersConcat(Runtimes(steps) + core, Sources(steps));
    SourcesAreSources(steps);
  }

  lemma CodeOfShape(code: ModuleLayer, steps: seq<BuildStep>)
    requires code.mediaType == WASM_LAYER
    ensures WasmBytes(Runtimes(steps) + [code] + Sources(steps)) == code.data
  {
    MediaTypesDiffer();
    RuntimesAreRuntimes(steps);
    var tail := [code] + Sources(steps);
    assert Runtimes(steps) + [code] + Sources(steps) == Runtimes(steps) + tail;
    FirstSkips(Runtimes(steps), tail, WASM_LAYER);
    assert tail[0] == code;
  }

  lemma SizeOfShape(core: seq<ModuleLayer>, steps: seq<BuildStep>)
    ensures TotalSize(Runtimes(steps) + core + Sources(steps)) == TotalSize(core) + AddedBytes(steps)
  {
    TotalSizeConcat(Runtimes(steps) + core, Sources(steps));
    TotalSizeConcat(Runtimes(steps), core);
    SizeOfAdded(steps);
  }

  // ---------------------------------------------------------------- finding layers

  /** The first layer of a type is found, and nothing only if there is none. */
  lemma {:induction false} FirstOfTypeIs(layers: seq<ModuleLayer>, mediaType: string)
    ensures match FirstOfType(layers, mediaType)
            case Some(l) =>
              exists i :: 0 <= i < |layers| && layers[i] == l && l.mediaType == mediaType
                          && forall j :: 0 <= j < i ==> layers[j].mediaType != mediaType
            case None => forall l :: l in layers ==> l.mediaType != mediaType
  {
    if layers != [] && layers[0].mediaType != mediaType {
      FirstOfTypeIs(layers[1..], mediaType);
      var found := FirstOfType(layers[1..], mediaType);
      if found.Some? {
        var i :| 0 <= i < |layers[1..]| && layers[1..][i] == found.value && found.value.mediaType == mediaType
                 && forall j :: 0 <= j < i ==> layers[1..][j].mediaType != mediaType;
        assert layers[i + 1] == found.value;
        assert forall j :: 0 < j < i + 1 ==> layers[j] == layers[1..][j - 1];
      } else {
        assert forall l :: l in layers <==> l == layers[0] || l in layers[1..];
      }
    }
  }

  /** The code of a module is its first module layer or, if it has none, its last layer. */
  lemma CodeIs(layers: seq<ModuleLayer>, i: nat)
    requires i < |layers|
    requires var code := "application/vnd.fabricks.module.v1+wasm";
             || (layers[i].mediaType == code && forall j :: 0 <= j < i ==> layers[j].mediaType != code)
             || (i == |layers| - 1 && forall l :: l in layers ==> l.mediaType != code)
    ensures WasmBytes(layers) == layers[i].data
    ensures WasmBytes([]) == []
  {
    FirstOfTypeIs(layers, WASM_LAYER);
  }

  /** Exactly the source layers are picked, in order. */
  lemma SourceLayersPick(layers: seq<ModuleLayer>, l: ModuleLayer)
    ensures SourceLayers([]) == []
    ensures SourceLayers(layers + [l])
         == SourceLayers(layers) + if l.mediaType == "application/vnd.fabricks.source.v1.tar+gzip" then [l] else []
  {
    SourceLayersConcat(layers, [l]);
    assert [l][1..] == [] && SourceLayers([l]) == if l.mediaType == SOURCE_LAYER then [l] else [];
  }

  // ---------------------------------------------------------------- annotations

  function Insert(m: Annotations, key: string, value: Option<string>): Annotations {
    if value.Some? then m[key := value.value] else m
  }

  function BuildAnnotations(config: Fabrickfile, custom: Annotations): Annotations {
    var info := config.info;
    var a := custom[FABRICK_VERSION_KEY := config.fabrickVersion][NAME_KEY := info.name][VERSION_KEY := info.version];
    var a := Insert(a, DESCRIPTION_KEY, info.description);
    var a := Insert(a, AUTHORS_KEY, if info.authors.Some? then Some(Join(info.authors.value, ", ")) else None);
    var a := Insert(a, LICENSE_KEY, info.license);
    Insert(a, SOURCE_KEY, info.repository)
  }

  datatype ConfigError = NoAnnotations | MissingName | MissingVersion

  /** Reads the configuration of a pulled module: the parsed TOML if it parses, or else a
      minimal configuration from the manifest annotations. */
  function ParseConfig(parsed: Option<Fabrickfile>, annotations: Option<Annotations>)
    : Result<Fabrickfile, ConfigError>
  {
    if parsed.Some? then Ok(parsed.value)
    else if annotations.None? then Err(NoAnnotations)
    else
      var a := annotations.value;
      if NAME_KEY !in a then Err(MissingName)
      else if VERSION_KEY !in a then Err(MissingVersion)
      else
        var version := Get(a, FABRICK_VERSION_KEY);
        var authors := Get(a, AUTHORS_KEY);
        Ok(Fabrickfile(
             if version.Some? then version.value else "1.0",
             Info(a[NAME_KEY], a[VERSION_KEY], Command, Get(a, DESCRIPTION_KEY),
                  if authors.Some? then Some(Split(authors.value, ", ")) else None,
                  Get(a, LICENSE_KEY), None, Get(a, SOURCE_KEY), None, None),
             NoSections))
  }

  /** The part of a configuration that annotations carry. */
  function Annotated(config: Fabrickfile): Fabrickfile {
    Fabrickfile(config.fabrickVersion,
                config.info.(serviceType := Command, homepage := None, documentation := None, keywords := None),
                NoSections)
  }

  ghost predicate AuthorsSurvive(authors: Option<seq<string>>) {
    authors.Some? ==> authors.value != [] && forall a :: a in authors.value ==> !Contains(a, ", ")
  }

  /** An optional field that is absent must not be supplied by a custom annotation. */
  ghost predicate NotSpoofed<T>(field: Option<T>, key: string, custom: Annotations) {
    field.None? ==> key !in custom
  }

  /** What the annotations of a manifest say of a module: each standard key has the value of
      its field or, if an optional field is absent, the custom value; every other key has the
      custom value. */
  ghost predicate Annotates(a: Annotations, config: Fabrickfile, custom: Annotations) {
    var info := config.info;
    && Get(a, "dev.fabricks.version") == Some(config.fabrickVersion)
    && Get(a, "dev.fabricks.name") == Some(info.name)
    && Get(a, "dev.fabricks.module.version") == Some(info.version)
    && HasField(a, "org.opencontainers.image.description", info.description, custom)
    && HasField(a, "org.opencontainers.image.authors",
                if info.authors.Some? then Some(Join(info.authors.value, ", ")) else None, custom)
    && HasField(a, "org.opencontainers.image.licenses", info.license, custom)
    && HasField(a, "org.opencontainers.image.source", info.repository, custom)
    && forall key :: key !in {"dev.fabricks.version", "dev.fabricks.name", "dev.fabricks.module.version",
                              "org.opencontainers.image.description", "org.opencontainers.image.authors",
                              "org.opencontainers.image.licenses", "org.opencontainers.image.source"}
                     ==> Get(a, key) == Get(custom, key)
  }

  ghost predicate HasField(a: Annotations, key: string, field: Option<string>, custom: Annotations) {
    Get(a, key) == if field.Some? then field else Get(custom, key)
  }

  lemma AnnotationsByKey(config: Fabrickfile, custom: Annotations)
    ensures Annotates(BuildAnnotations(config, custom), config, custom)
  {
  }

  /** And so they are determined key by key. */
  lemma AnnotatesDetermines(a: Annotations, b: Annotations, config: Fabrickfile, custom: Annotations)
    requires Annotates(a, config, custom) && Annotates(b, config, custom)
    ensures a == b
  {
    forall key
      ensures Get(a, key) == Get(b, key)
    {
    }
    assert forall key :: key in a <==> Get(a, key).Some?;
    assert forall key :: key in b <==> Get(b, key).Some?;
    assert forall key :: key in a ==> a[key] == Get(a, key).value;
  }

  /** What the fallback reads from each annotation, and what it reports missing first. A
      configuration that parses is taken as it is. */
  lemma ParsedByKey(parsed: Option<Fabrickfile>, a: Annotations)
    ensures parsed.Some? ==> ParseConfig(parsed, Some(a)) == ParseConfig(parsed, None) == Ok(parsed.value)
    ensures ParseConfig(None, None) == Err(NoAnnotations)
    ensures "dev.fabricks.name" !in a ==> ParseConfig(None, Some(a)) == Err(MissingName)
    ensures "dev.fabricks.name" in a && "dev.fabricks.module.version" !in a
            ==> ParseConfig(None, Some(a)) == Err(MissingVersion)
    ensures "dev.fabricks.name" in a && "dev.fabricks.module.version" in a ==>
              match ParseConfig(None, Some(a))
              case Err(_) => false
              case Ok(c) =>
                && c.fabrickVersion == (if "dev.fabricks.version" in a then a["dev.fabricks.version"] else "1.0")
                && c.info.name == a["dev.fabricks.name"] && c.info.version == a["dev.fabricks.module.version"]
                && c.info.description == Get(a, "org.opencontainers.image.description")
                && c.info.authors == (if "org.opencontainers.image.authors" in a
                                      then Some(Split(a["org.opencontainers.image.authors"], ", ")) else None)
                && c.info.license == Get(a, "org.opencontainers.image.licenses")
                && c.info.repository == Get(a, "org.opencontainers.image.source")
                && c.info.serviceType == Command && c.info.homepage == None && c.info.documentation == None
                && c.info.keywords == None && c.sections == NoSections
  {
  }

  /** The fallback recovers everything the annotations carry exactly when the author list is
      not empty and no author contains the separator, and no custom annotation stands in
      for an absent field. */
  lemma FallbackRecoversIff(config: Fabrickfile, custom: Annotations)
    ensures ParseConfig(None, Some(BuildAnnotations(config, custom))) == Ok(Annotated(config))
            <==> (&& AuthorsSurvive(config.info.authors)
                  && NotSpoofed(config.info.authors, AUTHORS_KEY, custom)
                  && NotSpoofed(config.info.description, DESCRIPTION_KEY, custom)
                  && NotSpoofed(config.info.license, LICENSE_KEY, custom)
                  && NotSpoofed(config.info.repository, SOURCE_KEY, custom))
  {
    AnnotationsByKey(config, custom);
    var sep := ", ";
    forall k | 0 < k < |sep|
      ensures !(sep[k..] <= sep)
    {
      assert sep[k..][0] == ' ' && sep[0] == ',';
    }
    if config.info.authors.Some? {
      SplitInvertsJoinIff(config.info.authors.value, sep);
    }
  }
}
