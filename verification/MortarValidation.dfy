/** Validation of a mortar file: every violation is collected, once, into a flat report. */
module MortarValidation {
  import opened CycleDetection
  import opened DependencyGraph
  import opened Sequences
  import opened Wrappers

  const MORTAR_VERSION := "1.0"

  datatype ValidationError =
    | UnsupportedVersion(version: string, expected: string)
    | InvalidName(name: string)
    | InvalidVersion(invalid: string)
    | MissingField(field: string)
    | MutuallyExclusive(option1: string, option2: string)
    | CircularDependency(cycle: string)
    | NotFound(entityType: string, entity: string)
    | Multiple(errors: seq<ValidationError>)

  datatype Service = Service(
    build: Option<string>,
    image: Option<string>,
    networks: seq<string>,
    volumes: Option<map<string, string>>,
    dependsOn: Option<seq<string>>)

  datatype MortarFile = MortarFile(
    mortarVersion: string,
    projectName: string,
    projectVersion: Option<string>,
    network: Option<set<string>>,
    volume: Option<set<string>>,
    service: map<string, Service>)
  {
    function NetworkNames(): set<string> {
      if network.Some? then network.value else {}
    }

    function VolumeNames(): set<string> {
      if volume.Some? then volume.value else {}
    }

    function Dependencies(): map<string, Option<seq<string>>> {
      map name | name in service :: service[name].dependsOn
    }

    ghost function Graph(): Graph {
      Adjacency(Dependencies())
    }
  }

  type Outcome = Result<(), ValidationError>

  predicate ValidName(name: string) {
    && name != ""
    && (forall i :: 0 <= i < |name| ==> 'a' <= name[i] <= 'z' || '0' <= name[i] <= '9' || name[i] == '-')
    && name[0] != '-' && name[|name| - 1] != '-'
  }

  // ---------------------------------------------------------------- specification

  function Missing(kind: string, names: seq<string>, known: set<string>): seq<ValidationError> {
    if names == [] then []
    else (if names[0] in known then [] else [NotFound(kind, names[0])]) + Missing(kind, names[1..], known)
  }

  function NoSource(name: string): ValidationError {
    MissingField("service." + name + ".build or service." + name + ".image")
  }

  function TwoSources(name: string): ValidationError {
    MutuallyExclusive("service." + name + ".build", "service." + name + ".image")
  }

  ghost function SourceViolations(name: string, service: Service): multiset<ValidationError> {
    if service.build.None? && service.image.None? then multiset{NoSource(name)}
    else if service.build.Some? && service.image.Some? then multiset{TwoSources(name)}
    else multiset{}
  }

  ghost function VolumeViolations(mounted: set<string>, known: set<string>): multiset<ValidationError> {
    multiset(set v | v in mounted && v !in known :: NotFound("volume", v))
  }

  ghost function DependencyViolations(service: Service, known: set<string>): multiset<ValidationError> {
    if service.dependsOn.Some? then multiset(Missing("service", service.dependsOn.value, known)) else multiset{}
  }

  /** Everything wrong with one service, with multiplicity: a network or dependency that
      is listed twice and unknown is reported twice. */
  ghost function ServiceViolations(name: string, service: Service, networks: set<string>,
                                   volumes: set<string>, services: set<string>): multiset<ValidationError>
  {
    SourceViolations(name, service)
    + multiset(Missing("network", service.networks, networks))
    + (if service.volumes.Some? then VolumeViolations(service.volumes.value.Keys, volumes) else multiset{})
    + DependencyViolations(service, services)
  }

  ghost function ViolationsOf(m: MortarFile, name: string): multiset<ValidationError>
    requires name in m.service
  {
    ServiceViolations(name, m.service[name], m.NetworkNames(), m.VolumeNames(), m.service.Keys)
  }

  /** The violations of a set of services, added up in no particular order. */
  ghost function SumOfServices(m: MortarFile, names: set<string>): multiset<ValidationError>
    requires names <= m.service.Keys
  {
    if names == {} then multiset{}
    else
      var name :| name in names;
      ViolationsOf(m, name) + SumOfServices(m, names - {name})
  }

  ghost function ProjectViolations(m: MortarFile, isSemver: string -> bool): multiset<ValidationError> {
    (if m.mortarVersion != MORTAR_VERSION then multiset{UnsupportedVersion(m.mortarVersion, MORTAR_VERSION)}
     else multiset{})
    + (if ValidName(m.projectName) then multiset{} else multiset{InvalidName(m.projectName)})
    + (if m.projectVersion.Some? && !isSemver(m.projectVersion.value)
       then multiset{InvalidVersion(m.projectVersion.value)} else multiset{})
  }

  /** At most one cycle is reported, and only when there is one. */
  ghost predicate CycleViolation(g: Graph, v: multiset<ValidationError>) {
    if HasCycle(g) then exists text :: ReportsCycle(g, text) && v == multiset{CircularDependency(text)}
    else v == multiset{}
  }

  /** `v` holds exactly what is wrong with the file. */
  ghost predicate Violations(m: MortarFile, isSemver: string -> bool, v: multiset<ValidationError>) {
    exists cycle :: CycleViolation(m.Graph(), cycle)
                    && v == ProjectViolations(m, isSemver) + SumOfServices(m, m.service.Keys) + cycle
  }

  /** A flat report of `v`: nothing for no violation, the bare error for exactly one,
      and otherwise a list of at least two that are all leaves. */
  ghost predicate Reports(r: Outcome, v: multiset<ValidationError>) {
    match r
    case Ok(_) => v == multiset{}
    case Err(Multiple(errors)) => |errors| >= 2 && multiset(errors) == v && Flat(v)
    case Err(e) => v == multiset{e}
  }

  ghost predicate Flat(v: multiset<ValidationError>) {
    forall e :: e in v ==> !e.Multiple?
  }

  ghost predicate IsLabel(name: string) {
    && name != "" && name[0] != '-' && name[|name| - 1] != '-'
    && forall i :: 0 <= i < |name| ==> 'a' <= name[i] <= 'z' || '0' <= name[i] <= '9' || name[i] == '-'
  }

  ghost predicate Depends(m: MortarFile, a: string, b: string) {
    a in m.service && m.service[a].dependsOn.Some? && b in m.service[a].dependsOn.value
  }

  /** Services that depend on each other in a circle, or one that depends on itself. */
  ghost predicate IsCircle(m: MortarFile, p: seq<string>) {
    |p| >= 2 && p[0] == p[|p| - 1] && forall i :: 0 <= i < |p| - 1 ==> Depends(m, p[i], p[i + 1])
  }

  /** What a user means by a valid mortar file, in terms of its records. */
  ghost predicate WellFormed(m: MortarFile, isSemver: string -> bool) {
    && m.mortarVersion == "1.0"
    && IsLabel(m.projectName)
    && (m.projectVersion.Some? ==> isSemver(m.projectVersion.value))
    && (forall name :: name in m.service ==> WellFormedService(m, name))
    && !exists p :: IsCircle(m, p)
  }

  ghost predicate WellFormedService(m: MortarFile, name: string)
    requires name in m.service
  {
    var service := m.service[name];
    && (service.build.Some? <==> service.image.None?)
    && (forall n :: n in service.networks ==> m.network.Some? && n in m.network.value)
    && (service.volumes.Some? ==> forall v :: v in service.volumes.value ==> m.volume.Some? && v in m.volume.value)
    && (forall d :: Depends(m, name, d) ==> d in m.service)
  }

  /** Services are started in an order in which each comes after all it depends on. */
  ghost predicate ServiceOrder(m: MortarFile, order: seq<string>) {
    && Distinct(order) && Elements(order) == m.service.Keys
    && forall i, d :: 0 <= i < |order| && Depends(m, order[i], d) ==> d in order[..i]
  }

  /** The graph that is searched has an edge for each dependency of each service. */
  lemma GraphIsDepends(m: MortarFile, a: string, b: string)
    ensures Edge(m.Graph(), a, b) <==> Depends(m, a, b)
    ensures m.Graph().Keys == m.service.Keys
  {
  }

  lemma CyclesAreCircles(m: MortarFile)
    ensures HasCycle(m.Graph()) <==> exists p :: IsCircle(m, p)
  {
    forall a, b
      ensures Edge(m.Graph(), a, b) <==> Depends(m, a, b)
    {
      GraphIsDepends(m, a, b);
    }
    if p :| IsCycle(m.Graph(), p) {
      assert IsCircle(m, p);
    }
    if p :| IsCircle(m, p) {
      assert IsCycle(m.Graph(), p);
    }
  }

  lemma StartOrderOfServices(m: MortarFile, order: seq<string>)
    requires StartOrder(m.Graph(), order) && Names(m.Graph()) == m.service.Keys
    ensures ServiceOrder(m, order)
  {
    forall i, d | 0 <= i < |order| && Depends(m, order[i], d)
      ensures d in order[..i]
    {
      GraphIsDepends(m, order[i], d);
    }
  }

  /** A reported cycle names two services, the first of which depends on the second, and which
      are on a circle of dependencies. */
  lemma ReportNamesCircle(m: MortarFile, text: string)
    requires ReportsCycle(m.Graph(), text)
    ensures exists p :: IsCircle(m, p) && text == p[|p| - 2] + " -> " + p[|p| - 1]
  {
    var p :| IsCycle(m.Graph(), p) && text == p[|p| - 2] + " -> " + p[|p| - 1];
    forall i | 0 <= i < |p| - 1
      ensures Depends(m, p[i], p[i + 1])
    {
      GraphIsDepends(m, p[i], p[i + 1]);
    }
    assert IsCircle(m, p);
  }

  lemma NameIsLabel(name: string)
    ensures ValidName(name) <==> IsLabel(name)
  {
  }

  // ---------------------------------------------------------------- lemmas

  lemma {:induction false} MissingAppend(kind: string, xs: seq<string>, x: string, known: set<string>)
    ensures Missing(kind, xs + [x], known)
         == Missing(kind, xs, known) + if x in known then [] else [NotFound(kind, x)]
  {
    if xs != [] {
      assert (xs + [x])[1..] == xs[1..] + [x];
      MissingAppend(kind, xs[1..], x, known);
    }
  }

  lemma {:induction false} MissingIsEmpty(kind: string, names: seq<string>, known: set<string>)
    ensures Missing(kind, names, known) == [] <==> forall n :: n in names ==> n in known
    ensures Flat(multiset(Missing(kind, names, known)))
  {
    if names != [] {
      MissingIsEmpty(kind, names[1..], known);
      assert forall n :: n in names <==> n == names[0] || n in names[1..];
    }
  }

  /** Any service may be counted first. */
  lemma {:induction false} SumTakesAny(m: MortarFile, names: set<string>, name: string)
    requires names <= m.service.Keys && name in names
    ensures SumOfServices(m, names) == ViolationsOf(m, name) + SumOfServices(m, names - {name})
    ensures SumOfServices(m, {}) == multiset{}
    decreases names
  {
    var first :| first in names
              && SumOfServices(m, names) == ViolationsOf(m, first) + SumOfServices(m, names - {first});
    if first != name {
      SumTakesAny(m, names - {first}, name);
      SumTakesAny(m, names - {name}, first);
      assert names - {first} - {name} == names - {name} - {first};
    }
  }

  lemma VolumeViolationsEmpty(mounted: set<string>, known: set<string>)
    ensures VolumeViolations(mounted, known) == multiset{} <==> mounted <= known
  {
    var unknown := set v | v in mounted && v !in known :: NotFound("volume", v);
    if v :| v in mounted && v !in known {
      assert NotFound("volume", v) in unknown;
      assert NotFound("volume", v) in VolumeViolations(mounted, known);
    } else {
      assert unknown == {};
    }
  }

  lemma AddService(m: MortarFile, done: set<string>, name: string)
    requires done <= m.service.Keys && name in m.service && name !in done
    ensures SumOfServices(m, done + {name}) == SumOfServices(m, done) + ViolationsOf(m, name)
  {
    assert done + {name} - {name} == done;
    SumTakesAny(m, done + {name}, name);
  }

  lemma ServiceViolationsFlat(name: string, service: Service, networks: set<string>,
                              volumes: set<string>, services: set<string>)
    ensures Flat(ServiceViolations(name, service, networks, volumes, services))
  {
    assert Flat(SourceViolations(name, service));
    MissingIsEmpty("network", service.networks, networks);
    if service.volumes.Some? {
      assert Flat(VolumeViolations(service.volumes.value.Keys, volumes));
    }
    if service.dependsOn.Some? {
      MissingIsEmpty("service", service.dependsOn.value, services);
    }
    assert Flat(DependencyViolations(service, services));
  }

  lemma NetworksAreKnown(m: MortarFile, service: Service)
    ensures Missing("network", service.networks, m.NetworkNames()) == []
            <==> forall n :: n in service.networks ==> m.network.Some? && n in m.network.value
  {
    MissingIsEmpty("network", service.networks, m.NetworkNames());
  }

  lemma VolumesAreKnown(m: MortarFile, volumes: map<string, string>)
    ensures VolumeViolations(volumes.Keys, m.VolumeNames()) == multiset{}
            <==> forall v :: v in volumes ==> m.volume.Some? && v in m.volume.value
  {
    VolumeViolationsEmpty(volumes.Keys, m.VolumeNames());
  }

  lemma DependenciesAreKnown(m: MortarFile, name: string)
    requires name in m.service
    ensures DependencyViolations(m.service[name], m.service.Keys) == multiset{}
            <==> forall d :: Depends(m, name, d) ==> d in m.service
  {
    if m.service[name].dependsOn.Some? {
      MissingIsEmpty("service", m.service[name].dependsOn.value, m.service.Keys);
    }
  }

  lemma NothingAdded(a: multiset<ValidationError>, b: multiset<ValidationError>,
                     c: multiset<ValidationError>, d: multiset<ValidationError>)
    ensures a + b + c + d == multiset{} <==> a == b == c == d == multiset{}
  {
    assert |a + b + c + d| == |a| + |b| + |c| + |d|;
    if a + b + c + d == multiset{} {
      assert |a| == 0 && |b| == 0 && |c| == 0 && |d| == 0;
    }
  }

  lemma ServiceViolationsAreFlat(m: MortarFile, name: string)
    requires name in m.service
    ensures Flat(ViolationsOf(m, name))
    ensures ViolationsOf(m, name) == multiset{} <==> WellFormedService(m, name)
  {
    hide Missing, VolumeViolations, DependencyViolations, MortarFile.NetworkNames, MortarFile.VolumeNames;
    hide Flat, Depends;
    var service := m.service[name];
    ServiceViolationsFlat(name, service, m.NetworkNames(), m.VolumeNames(), m.service.Keys);
    NetworksAreKnown(m, service);
    DependenciesAreKnown(m, name);
    if service.volumes.Some? {
      VolumesAreKnown(m, service.volumes.value);
    }
    NothingAdded(SourceViolations(name, service),
                 multiset(Missing("network", service.networks, m.NetworkNames())),
                 if service.volumes.None? then multiset{}
                 else VolumeViolations(service.volumes.value.Keys, m.VolumeNames()),
                 DependencyViolations(service, m.service.Keys));
  }

  lemma {:induction false} SumIsFlat(m: MortarFile, names: set<string>)
    requires names <= m.service.Keys
    ensures Flat(SumOfServices(m, names))
    ensures SumOfServices(m, names) == multiset{} <==> forall name :: name in names ==> WellFormedService(m, name)
    decreases names
  {
    if names != {} {
      var name :| name in names;
      SumTakesAny(m, names, name);
      ServiceViolationsAreFlat(m, name);
      SumIsFlat(m, names - {name});
    }
  }

  /** No violation is left exactly when the file is well formed, and violations are leaves. */
  lemma NoViolationsIffWellFormed(m: MortarFile, isSemver: string -> bool, v: multiset<ValidationError>)
    requires Violations(m, isSemver, v)
    ensures Flat(v)
    ensures v == multiset{} <==> WellFormed(m, isSemver)
  {
    hide SumOfServices, ValidName, IsLabel, WellFormedService, HasCycle, ReportsCycle, IsCircle;
    SumIsFlat(m, m.service.Keys);
    NameIsLabel(m.projectName);
    CyclesAreCircles(m);
  }

  /** In a well-formed file every dependency is a declared service, so a start order
      lists the services and nothing else. */
  lemma WellFormedIsClosed(m: MortarFile, isSemver: string -> bool)
    requires WellFormed(m, isSemver)
    ensures Names(m.Graph()) == m.service.Keys
  {
    forall a, d | Edge(m.Graph(), a, d)
      ensures d in m.service
    {
      GraphIsDepends(m, a, d);
      assert WellFormedService(m, a);
    }
  }

  // ---------------------------------------------------------------- what is reported, one by one

  lemma {:induction false} MissingCount(kind: string, names: seq<string>, known: set<string>, e: ValidationError)
    ensures multiset(Missing(kind, names, known))[e]
         == if e.NotFound? && e.entityType == kind && e.entity !in known then multiset(names)[e.entity] else 0
  {
    if names != [] {
      MissingCount(kind, names[1..], known, e);
      var first := if names[0] in known then [] else [NotFound(kind, names[0])];
      assert names == [names[0]] + names[1..];
      assert Missing(kind, names, known) == first + Missing(kind, names[1..], known);
      assert multiset(Missing(kind, names, known))[e]
          == multiset(first)[e] + multiset(Missing(kind, names[1..], known))[e];
    }
  }

  lemma VolumeCount(mounted: set<string>, known: set<string>, e: ValidationError)
    ensures VolumeViolations(mounted, known)[e]
         == if e.NotFound? && e.entityType == "volume" && e.entity in mounted && e.entity !in known then 1 else 0
  {
  }

  /** How often a service is reported for each reason, in terms of the records of the file: a
      network or dependency that is not declared as often as it is listed, a volume once. */
  lemma ViolationCounts(m: MortarFile, name: string, e: ValidationError)
    requires name in m.service
    ensures var service := m.service[name];
            ViolationsOf(m, name)[e] ==
              match e
              case MissingField(field) =>
                if service.build.None? && service.image.None?
                   && field == "service." + name + ".build or service." + name + ".image" then 1 else 0
              case MutuallyExclusive(option1, option2) =>
                if service.build.Some? && service.image.Some?
                   && option1 == "service." + name + ".build" && option2 == "service." + name + ".image" then 1 else 0
              case NotFound(kind, entity) =>
                if kind == "network" then
                  if m.network.Some? && entity in m.network.value then 0 else multiset(service.networks)[entity]
                else if kind == "volume" then
                  if service.volumes.Some? && entity in service.volumes.value
                     && !(m.volume.Some? && entity in m.volume.value) then 1 else 0
                else if kind == "service" then
                  if service.dependsOn.Some? && entity !in m.service
                  then multiset(service.dependsOn.value)[entity] else 0
                else 0
              case _ => 0
  {
    var service := m.service[name];
    KindsDiffer();
    MissingCount("network", service.networks, m.NetworkNames(), e);
    if service.volumes.Some? {
      VolumeCount(service.volumes.value.Keys, m.VolumeNames(), e);
    }
    if service.dependsOn.Some? {
      MissingCount("service", service.dependsOn.value, m.service.Keys, e);
    }
    SourceCount(name, service, e);
  }

  lemma KindsDiffer()
    ensures "network" != "volume" && "network" != "service" && "volume" != "service"
  {
    assert "network"[0] == 'n' && "volume"[0] == 'v' && "service"[0] == 's';
  }

  lemma SourceCount(name: string, service: Service, e: ValidationError)
    ensures SourceViolations(name, service)[e] ==
              match e
              case MissingField(field) =>
                if service.build.None? && service.image.None?
                   && field == "service." + name + ".build or service." + name + ".image" then 1 else 0
              case MutuallyExclusive(option1, option2) =>
                if service.build.Some? && service.image.Some?
                   && option1 == "service." + name + ".build" && option2 == "service." + name + ".image" then 1 else 0
              case _ => 0
  {
  }

  /** The same for the project itself. */
  lemma ProjectCounts(m: MortarFile, isSemver: string -> bool, e: ValidationError)
    ensures ProjectViolations(m, isSemver)[e] ==
              match e
              case UnsupportedVersion(version, expected) =>
                if m.mortarVersion != "1.0" && version == m.mortarVersion && expected == "1.0" then 1 else 0
              case InvalidName(name) => if name == m.projectName && !IsLabel(name) then 1 else 0
              case InvalidVersion(version) => if Some(version) == m.projectVersion && !isSemver(version) then 1 else 0
              case _ => 0
  {
    NameIsLabel(m.projectName);
  }

  // ---------------------------------------------------------------- the validator

  function Summarize(errors: seq<ValidationError>): Outcome {
    if |errors| == 0 then Ok(())
    else if |errors| == 1 then Err(errors[0])
    else Err(Multiple(errors))
  }

  method PushMissing(errors: seq<ValidationError>, kind: string, names: seq<string>, known: set<string>)
      returns (extended: seq<ValidationError>)
    ensures extended == errors + Missing(kind, names, known)
  {
    extended := errors;
    for i := 0 to |names|
      invariant extended == errors + Missing(kind, names[..i], known)
    {
      assert names[..i + 1] == names[..i] + [names[i]];
      MissingAppend(kind, names[..i], names[i], known);
      if names[i] !in known {
        extended := extended + [NotFound(kind, names[i])];
      }
    }
    assert names[..|names|] == names;
  }

  /** Volumes are mounted by a hash map, so they are looked at in an arbitrary order. */
  method PushMissingVolumes(errors: seq<ValidationError>, mounted: set<string>, known: set<string>)
      returns (extended: seq<ValidationError>)
    ensures multiset(extended) == multiset(errors) + VolumeViolations(mounted, known)
  {
    extended := errors;
    var remaining := mounted;
    while remaining != {}
      invariant remaining <= mounted
      invariant multiset(extended) == multiset(errors) + VolumeViolations(mounted - remaining, known)
      decreases remaining
    {
      var volume :| volume in remaining;
      MountOne(mounted - remaining, volume, known);
      assert mounted - (remaining - {volume}) == mounted - remaining + {volume};
      remaining := remaining - {volume};
      if volume !in known {
        extended := extended + [NotFound("volume", volume)];
      }
    }
    assert mounted - remaining == mounted;
  }

  method ValidateService(name: string, service: Service, networkNames: set<string>,
                         volumeNames: set<string>, serviceNames: set<string>)
      returns (r: Outcome)
    ensures Reports(r, ServiceViolations(name, service, networkNames, volumeNames, serviceNames))
  {
    var errors: seq<ValidationError> := [];
    match (service.build, service.image) {
      case (None, None) => errors := [NoSource(name)];
      case (Some(_), Some(_)) => errors := [TwoSources(name)];
      case _ =>
    }
    assert multiset(errors) == SourceViolations(name, service);
    ghost var source := SourceViolations(name, service);
    ghost var networks := multiset(Missing("network", service.networks, networkNames));
    ghost var volumes := if service.volumes.Some?
      then VolumeViolations(service.volumes.value.Keys, volumeNames) else multiset{};
    errors := PushMissing(errors, "network", service.networks, networkNames);
    assert multiset(errors) == source + networks;
    if service.volumes.Some? {
      errors := PushMissingVolumes(errors, service.volumes.value.Keys, volumeNames);
    }
    assert multiset(errors) == source + networks + volumes;
    if service.dependsOn.Some? {
      errors := PushMissing(errors, "service", service.dependsOn.value, serviceNames);
    }
    assert multiset(errors) == source + networks + volumes + DependencyViolations(service, serviceNames);
    ServiceViolationsFlat(name, service, networkNames, volumeNames, serviceNames);
    SummaryReports(errors);
    r := Summarize(errors);
  }

  lemma MountOne(mounted: set<string>, v: string, known: set<string>)
    requires v !in mounted
    ensures VolumeViolations(mounted + {v}, known)
         == VolumeViolations(mounted, known) + if v in known then multiset{} else multiset{NotFound("volume", v)}
  {
  }

  lemma SummaryReports(errors: seq<ValidationError>)
    requires Flat(multiset(errors))
    ensures Reports(Summarize(errors), multiset(errors))
  {
  }

  /** A nested report is spliced in, so the collected list stays flat. */
  function Absorb(errors: seq<ValidationError>, outcome: Outcome): seq<ValidationError> {
    match outcome
    case Ok(_) => errors
    case Err(Multiple(subErrors)) => errors + subErrors
    case Err(e) => errors + [e]
  }

  lemma AbsorbKeepsAll(errors: seq<ValidationError>, outcome: Outcome, v: multiset<ValidationError>)
    requires Reports(outcome, v)
    ensures multiset(Absorb(errors, outcome)) == multiset(errors) + v
  {
  }

  method ValidateNext(m: MortarFile, errors: seq<ValidationError>, name: string, ghost done: set<string>)
      returns (extended: seq<ValidationError>)
    requires done <= m.service.Keys && name in m.service && name !in done
    requires multiset(errors) == SumOfServices(m, done)
    ensures multiset(extended) == SumOfServices(m, done + {name})
  {
    var outcome := ValidateService(name, m.service[name], m.NetworkNames(), m.VolumeNames(), m.service.Keys);
    extended := Absorb(errors, outcome);
    AbsorbKeepsAll(errors, outcome, ViolationsOf(m, name));
    AddService(m, done, name);
  }

  /** Services come from a hash map, so they are validated in an arbitrary order. */
  method ValidateServices(m: MortarFile) returns (errors: seq<ValidationError>)
    ensures multiset(errors) == SumOfServices(m, m.service.Keys)
  {
    hide ViolationsOf;
    errors := [];
    var remaining := m.service.Keys;
    ghost var done := {};
    while remaining != {}
      invariant done + remaining == m.service.Keys && done !! remaining
      invariant multiset(errors) == SumOfServices(m, done)
      decreases remaining
    {
      var name :| name in remaining;
      remaining := remaining - {name};
      errors := ValidateNext(m, errors, name, done);
      done := done + {name};
    }
  }

  method ValidateProject(m: MortarFile, isSemver: string -> bool) returns (errors: seq<ValidationError>)
    ensures multiset(errors) == ProjectViolations(m, isSemver)
  {
    errors := [];
    if m.mortarVersion != MORTAR_VERSION {
      errors := errors + [UnsupportedVersion(m.mortarVersion, MORTAR_VERSION)];
    }
    if !ValidName(m.projectName) {
      errors := errors + [InvalidName(m.projectName)];
    }
    if m.projectVersion.Some? && !isSemver(m.projectVersion.value) {
      errors := errors + [InvalidVersion(m.projectVersion.value)];
    }
  }

  lemma CollectedAreViolations(m: MortarFile, isSemver: string -> bool, collected: seq<ValidationError>,
                               acyclic: Result<(), string>, errors: seq<ValidationError>)
    requires multiset(collected) == ProjectViolations(m, isSemver) + SumOfServices(m, m.service.Keys)
    requires acyclic.Err? <==> HasCycle(m.Graph())
    requires acyclic.Err? ==> ReportsCycle(m.Graph(), acyclic.error)
    requires errors == collected + if acyclic.Err? then [CircularDependency(acyclic.error)] else []
    ensures Violations(m, isSemver, multiset(errors))
  {
  }

  /** Validates a whole mortar file. The report holds every violation exactly once and is
      flat; it is empty exactly for well-formed files, whose services have a start order. */
  method Validate(m: MortarFile, isSemver: string -> bool) returns (r: Outcome)
    ensures exists v :: Violations(m, isSemver, v) && Reports(r, v)
    ensures r.Ok? <==> WellFormed(m, isSemver)
    ensures r.Ok? ==> exists order :: ServiceOrder(m, order)
  {
    var errors := ValidateProject(m, isSemver);
    var serviceErrors := ValidateServices(m);
    errors := errors + serviceErrors;
    ghost var collected := errors;
    var acyclic := CheckCircularDependencies(m.Dependencies());
    if acyclic.Err? {
      errors := errors + [CircularDependency(acyclic.error)];
    }
    CollectedAreViolations(m, isSemver, collected, acyclic, errors);
    NoViolationsIffWellFormed(m, isSemver, multiset(errors));
    SummaryReports(errors);
    r := Summarize(errors);
    if r.Ok? {
      WellFormedIsClosed(m, isSemver);
      ghost var order :| StartOrder(m.Graph(), order);
      StartOrderOfServices(m, order);
    }
  }
}
