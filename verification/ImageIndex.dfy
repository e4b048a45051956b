/** The manifest list of `index.json`, which stands for a map from reference to digest.

    Image Layout Specification, section "index.json file": a manifest is named by the
    annotation `org.opencontainers.image.ref.name`. */
module ImageIndex {
  import opened Sequences
  import opened Wrappers

  const REF_NAME := "org.opencontainers.image.ref.name"
  const MANIFEST_MEDIA_TYPE := "application/vnd.oci.image.manifest.v1+json"

  datatype IndexEntry = IndexEntry(
    mediaType: string,
    digest: string,
    size: int,
    annotations: Option<map<string, string>>)
  {
    function Reference(): Option<string> {
      if annotations.Some? && REF_NAME in annotations.value then Some(annotations.value[REF_NAME]) else None
    }
  }

  // ---------------------------------------------------------------- operations

  /** `retain`: drops the entries of one reference. */
  function Without(entries: seq<IndexEntry>, reference: string): seq<IndexEntry> {
    if entries == [] then []
    else (if entries[0].Reference() == Some(reference) then [] else [entries[0]]) + Without(entries[1..], reference)
  }

  function NewEntry(reference: string, digest: string, size: int): IndexEntry {
    IndexEntry(MANIFEST_MEDIA_TYPE, digest, size, Some(map[REF_NAME := reference]))
  }

  function Upsert(entries: seq<IndexEntry>, reference: string, digest: string, size: int): seq<IndexEntry> {
    Without(entries, reference) + [NewEntry(reference, digest, size)]
  }

  /** The digest of the first entry that carries the reference. */
  method FindDigest(entries: seq<IndexEntry>, reference: string) returns (digest: Option<string>)
    ensures digest == Get(AsMap(entries), reference)
  {
    for i := 0 to |entries|
      invariant Get(AsMap(entries), reference) == Get(AsMap(entries[i..]), reference)
    {
      assert entries[i..][1..] == entries[i + 1..];
      if entries[i].Reference() == Some(reference) {
        return Some(entries[i].digest);
      }
    }
    return None;
  }

  method ListReferences(entries: seq<IndexEntry>) returns (refs: seq<string>)
    ensures refs == References(entries)
  {
    refs := [];
    for i := 0 to |entries|
      invariant References(entries) == refs + References(entries[i..])
    {
      assert entries[i..][1..] == entries[i + 1..];
      var name := entries[i].Reference();
      if name.Some? {
        refs := refs + [name.value];
      }
    }
  }

  // ---------------------------------------------------------------- abstraction

  /** The map an entry list stands for: earlier entries win. */
  function AsMap(entries: seq<IndexEntry>): map<string, string> {
    if entries == [] then map[]
    else
      var name := entries[0].Reference();
      if name.Some? then AsMap(entries[1..])[name.value := entries[0].digest] else AsMap(entries[1..])
  }

  function References(entries: seq<IndexEntry>): seq<string> {
    if entries == [] then []
    else
      var name := entries[0].Reference();
      (if name.Some? then [name.value] else []) + References(entries[1..])
  }

  /** Entries written by other tools, which carry no reference. */
  function Unnamed(entries: seq<IndexEntry>): seq<IndexEntry> {
    if entries == [] then []
    else (if entries[0].Reference().None? then [entries[0]] else []) + Unnamed(entries[1..])
  }

  function Occurrences(entries: seq<IndexEntry>, reference: string): nat {
    if entries == [] then 0
    else (if entries[0].Reference() == Some(reference) then 1 else 0) + Occurrences(entries[1..], reference)
  }

  lemma {:induction false} WithoutMap(entries: seq<IndexEntry>, reference: string)
    ensures AsMap(Without(entries, reference)) == AsMap(entries) - {reference}
    ensures Unnamed(Without(entries, reference)) == Unnamed(entries)
    ensures forall e :: e in Without(entries, reference) ==> e in entries
  {
    if entries != [] {
      WithoutMap(entries[1..], reference);
      var name := entries[0].Reference();
      if name != Some(reference) {
        assert Without(entries, reference)[1..] == Without(entries[1..], reference);
      } else {
        assert Without(entries, reference) == Without(entries[1..], reference);
      }
    }
  }

  function Drop(names: seq<string>, name: string): seq<string> {
    if names == [] then []
    else (if names[0] == name then [] else [names[0]]) + Drop(names[1..], name)
  }

  lemma {:induction false} WithoutReferences(entries: seq<IndexEntry>, reference: string)
    ensures References(Without(entries, reference)) == Drop(References(entries), reference)
  {
    if entries != [] {
      var tail := Without(entries[1..], reference);
      WithoutReferences(entries[1..], reference);
      var name := entries[0].Reference();
      if name != Some(reference) {
        assert Without(entries, reference)[1..] == tail;
      } else {
        assert Without(entries, reference) == tail;
      }
      if name.Some? {
        assert References(entries)[1..] == References(entries[1..]);
      } else {
        assert References(entries) == References(entries[1..]);
      }
    }
  }

  lemma {:induction false} DropEffect(names: seq<string>, name: string)
    ensures forall n :: n in Drop(names, name) <==> n in names && n != name
    ensures Distinct(names) ==> Distinct(Drop(names, name))
  {
    if names != [] {
      DropEffect(names[1..], name);
      assert names == [names[0]] + names[1..];
      TailIsDistinct(names[0], names[1..]);
      TailIsDistinct(names[0], Drop(names[1..], name));
    }
  }

  lemma TailIsDistinct(name: string, names: seq<string>)
    ensures Distinct([name] + names) <==> name !in names && Distinct(names)
  {
    var all := [name] + names;
    if Distinct(all) {
      forall i, j | 0 <= i < j < |names|
        ensures names[i] != names[j]
      {
        assert all[i + 1] != all[j + 1];
      }
      forall i | 0 <= i < |names|
        ensures names[i] != name
      {
        assert all[0] != all[i + 1];
      }
    }
  }

  lemma {:induction false} AppendEffect(entries: seq<IndexEntry>, e: IndexEntry)
    requires e.Reference().Some?
    ensures e.Reference().value !in References(entries)
        ==> AsMap(entries + [e]) == AsMap(entries)[e.Reference().value := e.digest]
    ensures Unnamed(entries + [e]) == Unnamed(entries)
    ensures References(entries + [e]) == References(entries) + [e.Reference().value]
  {
    if entries == [] {
      assert entries + [e] == [e];
    } else {
      assert (entries + [e])[1..] == entries[1..] + [e];
      AppendEffect(entries[1..], e);
    }
  }

  ghost predicate Carries(e: IndexEntry, reference: string) {
    && e.annotations.Some? && "org.opencontainers.image.ref.name" in e.annotations.value
    && e.annotations.value["org.opencontainers.image.ref.name"] == reference
  }

  ghost predicate IsFirst(entries: seq<IndexEntry>, reference: string, i: int) {
    0 <= i < |entries| && Carries(entries[i], reference) && forall j :: 0 <= j < i ==> !Carries(entries[j], reference)
  }

  lemma ReferenceIsAnnotation(e: IndexEntry, reference: string)
    ensures e.Reference() == Some(reference) <==> Carries(e, reference)
    ensures e.Reference().None?
            <==> e.annotations.None? || "org.opencontainers.image.ref.name" !in e.annotations.value
  {
  }

  /** Of several entries with one reference, the first stands. */
  lemma {:induction false} FirstEntryWins(entries: seq<IndexEntry>, reference: string)
    ensures match Get(AsMap(entries), reference)
            case Some(digest) => exists i :: IsFirst(entries, reference, i) && entries[i].digest == digest
            case None => forall e :: e in entries ==> !Carries(e, reference)
  {
    if entries != [] {
      var rest := entries[1..];
      FirstEntryWins(rest, reference);
      ReferenceIsAnnotation(entries[0], reference);
      if Carries(entries[0], reference) {
        assert IsFirst(entries, reference, 0);
      } else if Get(AsMap(rest), reference).Some? {
        var i :| IsFirst(rest, reference, i) && rest[i].digest == Get(AsMap(rest), reference).value;
        assert entries[i + 1] == rest[i];
        assert forall j :: 0 < j < i + 1 ==> entries[j] == rest[j - 1];
        assert IsFirst(entries, reference, i + 1);
      }
    }
  }

  lemma {:induction false} ListedOrUnnamed(entries: seq<IndexEntry>, e: IndexEntry)
    ensures References(entries + [e])
         == References(entries) + if e.Reference().Some? then [e.Reference().value] else []
    ensures Unnamed(entries + [e]) == Unnamed(entries) + if e.Reference().Some? then [] else [e]
  {
    hide IndexEntry.Reference;
    if entries == [] {
      assert entries + [e] == [e] && [e][1..] == [];
    } else {
      assert (entries + [e])[1..] == entries[1..] + [e];
      ListedOrUnnamed(entries[1..], e);
    }
  }

  /** The listed references are those of the entries, in order, and the entries without a
      reference are the others. */
  lemma ReferencesNext(entries: seq<IndexEntry>, e: IndexEntry)
    ensures References([]) == [] && Unnamed([]) == []
    ensures if e.annotations.Some? && "org.opencontainers.image.ref.name" in e.annotations.value then
              && References(entries + [e])
                   == References(entries) + [e.annotations.value["org.opencontainers.image.ref.name"]]
              && Unnamed(entries + [e]) == Unnamed(entries)
            else
              References(entries + [e]) == References(entries) && Unnamed(entries + [e]) == Unnamed(entries) + [e]
  {
    ListedOrUnnamed(entries, e);
  }

  /** Exactly the entries of the reference are dropped; the others stay as they are. */
  lemma {:induction false} WithoutNext(entries: seq<IndexEntry>, e: IndexEntry, reference: string)
    ensures Without([], reference) == []
    ensures Without(entries + [e], reference)
         == Without(entries, reference) + if Carries(e, reference) then [] else [e]
  {
    ReferenceIsAnnotation(e, reference);
    if entries == [] {
      assert entries + [e] == [e] && [e][1..] == [];
    } else {
      assert (entries + [e])[1..] == entries[1..] + [e];
      WithoutNext(entries[1..], e, reference);
    }
  }

  /** And the new entry comes last. */
  lemma UpsertAppends(entries: seq<IndexEntry>, reference: string, digest: string, size: int)
    ensures Upsert(entries, reference, digest, size) == Without(entries, reference)
              + [IndexEntry("application/vnd.oci.image.manifest.v1+json", digest, size,
                            Some(map["org.opencontainers.image.ref.name" := reference]))]
  {
  }

  lemma {:induction false} OccurrencesCount(entries: seq<IndexEntry>, reference: string)
    ensures Occurrences(entries, reference) == multiset(References(entries))[reference]
  {
    if entries != [] {
      OccurrencesCount(entries[1..], reference);
    }
  }

  /** Adding a manifest is a map update. It leaves exactly one entry for the reference,
      keeps the entries of other tools as they were, and keeps references distinct. */
  lemma UpsertIsMapUpdate(entries: seq<IndexEntry>, reference: string, digest: string, size: int)
    ensures var updated := Upsert(entries, reference, digest, size);
            && AsMap(updated) == AsMap(entries)[reference := digest]
            && Occurrences(updated, reference) == 1
            && Unnamed(updated) == Unnamed(entries)
            && References(updated) == Drop(References(entries), reference) + [reference]
            && (Distinct(References(entries)) ==> Distinct(References(updated)))
  {
    var kept, e := Without(entries, reference), NewEntry(reference, digest, size);
    WithoutMap(entries, reference);
    WithoutReferences(entries, reference);
    DropEffect(References(entries), reference);
    AppendEffect(kept, e);
    assert AsMap(kept)[reference := digest] == AsMap(entries)[reference := digest];
    AddedOnce(References(kept), reference);
    OccurrencesCount(kept + [e], reference);
  }

  lemma AddedOnce(names: seq<string>, name: string)
    requires name !in names
    ensures multiset(names + [name])[name] == 1
    ensures Distinct(names) ==> Distinct(names + [name])
  {
  }

  datatype Addition = Addition(reference: string, digest: string, size: int)

  function AddAll(entries: seq<IndexEntry>, adds: seq<Addition>): seq<IndexEntry> {
    if adds == [] then entries
    else
      var last := adds[|adds| - 1];
      Upsert(AddAll(entries, adds[..|adds| - 1]), last.reference, last.digest, last.size)
  }

  function UpdateAll(m: map<string, string>, adds: seq<Addition>): map<string, string> {
    if adds == [] then m
    else UpdateAll(m, adds[..|adds| - 1])[adds[|adds| - 1].reference := adds[|adds| - 1].digest]
  }

  /** Over every run the list stands for the updated map; a run from an empty index never
      lists a reference twice. */
  lemma {:induction false} RunsRefineMap(entries: seq<IndexEntry>, adds: seq<Addition>)
    ensures AsMap(AddAll(entries, adds)) == UpdateAll(AsMap(entries), adds)
    ensures Unnamed(AddAll(entries, adds)) == Unnamed(entries)
    ensures Distinct(References(entries)) ==> Distinct(References(AddAll(entries, adds)))
    ensures Distinct(References(AddAll([], adds)))
    decreases |adds|
  {
    if adds != [] {
      var init, last := adds[..|adds| - 1], adds[|adds| - 1];
      RunsRefineMap(entries, init);
      UpsertIsMapUpdate(AddAll(entries, init), last.reference, last.digest, last.size);
      UpsertIsMapUpdate(AddAll([], init), last.reference, last.digest, last.size);
    }
  }

  lemma {:induction false} ReferencesAreKeys(entries: seq<IndexEntry>)
    ensures forall name :: name in References(entries) <==> name in AsMap(entries)
  {
    if entries != [] {
      ReferencesAreKeys(entries[1..]);
    }
  }
}
