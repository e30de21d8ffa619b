/** Canonical type URLs and the registry that indexes schemas by name, URL, object and descriptor. */
module TypeUrls {
  import opened ModuleGraph

  const DEFAULT_TYPE_URL_PREFIX := "type.googleapis.com"

  datatype Explicit = Derived | Url(text: string)

  datatype Resolution = Resolved(url: string) | Malformed

  /** Drops every trailing slash. */
  function TrimSlashes(s: string): (t: string)
    ensures t <= s && (t == "" || t[|t| - 1] != '/')
    ensures forall i :: |t| <= i < |s| ==> s[i] == '/'
  {
    if s != "" && s[|s| - 1] == '/' then TrimSlashes(s[..|s| - 1]) else s
  }

  function FilePrefixOf(schema: Schema): string {
    match schema.filePrefix
    case Prefix(text) => text
    case NoPrefix => DEFAULT_TYPE_URL_PREFIX
  }

  predicate EndsWith(s: string, suffix: string) {
    |suffix| <= |s| && s[|s| - |suffix|..] == suffix
  }

  function Derive(schema: Schema): (url: string)
    ensures |url| > |schema.typeName|
    ensures EndsWith(url, "/" + schema.typeName)
    ensures url[..|url| - |schema.typeName| - 1] == TrimSlashes(FilePrefixOf(schema))
  {
    TrimSlashes(FilePrefixOf(schema)) + "/" + schema.typeName
  }

  /** An explicit URL needs a non-empty prefix before "/" and the schema's own type name. */
  predicate ValidUrl(schema: Schema, url: string) {
    var suffix := "/" + schema.typeName;
    EndsWith(url, suffix) && |url| > |suffix|
  }

  function Resolve(schema: Schema, explicitUrl: Explicit): (r: Resolution)
    ensures r.Resolved? ==> |r.url| > |schema.typeName|
  {
    match explicitUrl
    case Derived => Resolved(Derive(schema))
    case Url(text) => if ValidUrl(schema, text) then Resolved(text) else Malformed
  }

  /** The derived URL: the file's own prefix without its trailing slashes, or the default one, before the type name. */
  lemma DerivedUrl(schema: Schema) returns (kept: nat)
    ensures schema.filePrefix == NoPrefix ==> Derive(schema) == "type.googleapis.com/" + schema.typeName
    ensures schema.filePrefix.Prefix? ==>
              var text := schema.filePrefix.text;
              && kept <= |text| && (forall i :: kept <= i < |text| ==> text[i] == '/')
              && (kept > 0 ==> text[kept - 1] != '/')
              && Derive(schema) == text[..kept] + "/" + schema.typeName
  {
    kept := |TrimSlashes(FilePrefixOf(schema))|;
  }

  /** An explicit URL is used as it is exactly when a non-empty prefix and a slash stand before the type name. */
  lemma ExplicitUrl(schema: Schema, text: string)
    ensures Resolve(schema, Derived) == Resolved(Derive(schema))
    ensures var accepted := exists prefix :: prefix != "" && text == prefix + ("/" + schema.typeName);
            Resolve(schema, Url(text)) == if accepted then Resolved(text) else Malformed
  {
    var suffix := "/" + schema.typeName;
    if ValidUrl(schema, text) {
      var prefix := text[..|text| - |suffix|];
      assert text == prefix + suffix;
    }
    forall prefix | prefix != "" && text == prefix + suffix ensures ValidUrl(schema, text) {
      assert text[|text| - |suffix|..] == suffix;
    }
  }

  /** Cutting the type name and its slash off a resolved URL and gluing them back is the identity. */
  lemma PrefixRebuildsUrl(schema: Schema, explicitUrl: Explicit)
    ensures var r := Resolve(schema, explicitUrl);
            r.Resolved? ==>
              && |r.url| >= |schema.typeName| + 1
              && r.url[..|r.url| - |schema.typeName| - 1] + "/" + schema.typeName == r.url
  {
    var r := Resolve(schema, explicitUrl);
    match explicitUrl
    case Derived =>
      var prefix := TrimSlashes(FilePrefixOf(schema));
      assert r.url[..|prefix|] == prefix;
    case Url(text) =>
      if r.Resolved? {
        var cut := |text| - |schema.typeName| - 1;
        assert text == text[..cut] + text[cut..];
        assert text[cut..] == "/" + schema.typeName;
      }
  }
}

module TypeRegistry {
  import opened Options
  import opened ModuleGraph
  import opened ModuleComposition
  import opened TypeUrls

  datatype Metadata = Metadata(fullTypeName: string, typeUrl: string, schema: Schema, typeUrlPrefix: string)

  datatype RegistryError = BadUrl | DuplicateUrl(url: string) | DuplicateName(name: string) | IdentityConflict(proto: nat)

  datatype Registration = Registered(metadata: Metadata) | Rejected(error: RegistryError)

  /** Holds of every entry: the URL is the prefix, a slash and the name of the schema. */
  ghost predicate WellFormed(md: Metadata) {
    && md.fullTypeName == md.schema.typeName
    && md.typeUrl == md.typeUrlPrefix + "/" + md.fullTypeName
  }

  function MetadataOf(schema: Schema, url: string): Metadata
    requires |url| > |schema.typeName|
  {
    Metadata(schema.typeName, url, schema, url[..|url| - |schema.typeName| - 1])
  }

  /** Two entries that could not both be registered. */
  ghost predicate Clash(a: Metadata, b: Metadata) {
    a.fullTypeName == b.fullTypeName || a.typeUrl == b.typeUrl || a.schema.proto == b.schema.proto
  }

  ghost predicate Unique(list: seq<Metadata>) {
    forall i, j :: 0 <= i < j < |list| ==> !Clash(list[i], list[j])
  }

  ghost predicate Acceptable(list: seq<Metadata>, schema: Schema, explicitUrl: Explicit) {
    var r := Resolve(schema, explicitUrl);
    && r.Resolved?
    && forall md :: md in list ==>
         md.fullTypeName != schema.typeName && md.typeUrl != r.url && md.schema.proto != schema.proto
  }

  /**
    The reported error is the first obstacle: a malformed URL, an explicit URL that is taken, the
    name, a derived URL that is taken, and last the descriptor.
    */
  ghost predicate Explains(list: seq<Metadata>, schema: Schema, explicitUrl: Explicit, e: RegistryError) {
    var r := Resolve(schema, explicitUrl);
    var nameTaken := exists md :: md in list && md.fullTypeName == schema.typeName;
    var urlTaken := r.Resolved? && exists md :: md in list && md.typeUrl == r.url;
    match e
    case BadUrl => r.Malformed?
    case DuplicateUrl(u) => r == Resolved(u) && urlTaken && (explicitUrl.Derived? ==> !nameTaken)
    case DuplicateName(n) => n == schema.typeName && r.Resolved? && nameTaken && (explicitUrl.Url? ==> !urlTaken)
    case IdentityConflict(p) =>
      p == schema.proto && r.Resolved? && !nameTaken && !urlTaken && exists md :: md in list && md.schema.proto == p
  }

  /** An index holds exactly the listed metadata, each under its own key. */
  ghost predicate Indexes<K(!new)>(index: map<K, Metadata>, list: seq<Metadata>, key: Metadata -> K) {
    && (forall md :: md in list ==> key(md) in index && index[key(md)] == md)
    && (forall k :: k in index ==> index[k] in list && key(index[k]) == k)
  }

  lemma IndexAppend<K(!new)>(index: map<K, Metadata>, list: seq<Metadata>, key: Metadata -> K, md: Metadata)
    requires Indexes(index, list, key) && key(md) !in index
    ensures Indexes(index[key(md) := md], list + [md], key)
  {
  }

  lemma IndexMember<K(!new)>(index: map<K, Metadata>, list: seq<Metadata>, key: Metadata -> K, k: K)
    requires Indexes(index, list, key)
    ensures k in index <==> exists md :: md in list && key(md) == k
  {
    if k in index {
      assert index[k] in list && key(index[k]) == k;
    }
  }

  /** The list read from the name index by its insertion order. */
  function Entries(names: seq<string>, byFullName: map<string, Metadata>): (list: seq<Metadata>)
    requires forall n :: n in names ==> n in byFullName
    ensures |list| == |names| && forall i :: 0 <= i < |names| ==> list[i] == byFullName[names[i]]
  {
    if names == [] then [] else [byFullName[names[0]]] + Entries(names[1..], byFullName)
  }

  // The key of an entry in each index.

  function NameOf(md: Metadata): string { md.fullTypeName }

  function UrlOf(md: Metadata): string { md.typeUrl }

  function SchemaOf(md: Metadata): Schema { md.schema }

  function DescriptorOf(md: Metadata): nat { md.schema.proto }

  lemma EntriesAppend(names: seq<string>, byFullName: map<string, Metadata>, n: string, md: Metadata)
    requires (forall x :: x in names ==> x in byFullName) && n !in byFullName
    ensures Entries(names + [n], byFullName[n := md]) == Entries(names, byFullName) + [md]
  {
    var m' := byFullName[n := md];
    var l, l' := Entries(names, byFullName), Entries(names + [n], m');
    forall i | 0 <= i < |l'| ensures l'[i] == (l + [md])[i] {
      if i < |names| {
        assert names[i] in names;
        assert (names + [n])[i] == names[i];
        assert names[i] != n;
      }
    }
  }

  /** What makes a new entry acceptable, in terms of the four indexes. */
  lemma AcceptableByIndex(list: seq<Metadata>, byFullName: map<string, Metadata>, byTypeUrl: map<string, Metadata>,
                          byDescriptor: map<nat, Metadata>, schema: Schema, explicitUrl: Explicit)
    requires Indexes(byFullName, list, NameOf) && Indexes(byTypeUrl, list, UrlOf) && Indexes(byDescriptor, list, DescriptorOf)
    ensures Acceptable(list, schema, explicitUrl) <==>
            var r := Resolve(schema, explicitUrl);
            r.Resolved? && schema.typeName !in byFullName && r.url !in byTypeUrl && schema.proto !in byDescriptor
  {
    var r := Resolve(schema, explicitUrl);
    if r.Resolved? {
      IndexMember(byFullName, list, NameOf, schema.typeName);
      IndexMember(byTypeUrl, list, UrlOf, r.url);
      IndexMember(byDescriptor, list, DescriptorOf, schema.proto);
    }
  }

  /** The object index needs no check of its own: a listed schema already owns its name. */
  lemma NewSchema(list: seq<Metadata>, bySchema: map<Schema, Metadata>, schema: Schema, explicitUrl: Explicit)
    requires Indexes(bySchema, list, SchemaOf) && Acceptable(list, schema, explicitUrl)
    requires forall md :: md in list ==> WellFormed(md)
    ensures schema !in bySchema
  {
    IndexMember(bySchema, list, SchemaOf, schema);
  }

  lemma UniqueAppend(list: seq<Metadata>, schema: Schema, explicitUrl: Explicit, md: Metadata)
    requires Unique(list) && Acceptable(list, schema, explicitUrl)
    requires md.schema == schema && md.fullTypeName == schema.typeName && Resolve(schema, explicitUrl) == Resolved(md.typeUrl)
    ensures Unique(list + [md])
  {
    forall i | 0 <= i < |list| ensures !Clash(list[i], md) {
      assert list[i] in list;
    }
  }

  /** The four indexes hold exactly the listed metadata, and no two entries clash. */
  ghost predicate Consistent(names: seq<string>, byFullName: map<string, Metadata>, byTypeUrl: map<string, Metadata>,
                             bySchema: map<Schema, Metadata>, byDescriptor: map<nat, Metadata>)
  {
    && (forall n :: n in names ==> n in byFullName)
    && var list := Entries(names, byFullName);
    && Unique(list) && (forall md :: md in list ==> WellFormed(md))
    && Indexes(byFullName, list, NameOf) && Indexes(byTypeUrl, list, UrlOf)
    && Indexes(bySchema, list, SchemaOf) && Indexes(byDescriptor, list, DescriptorOf)
  }

  /** A clash is found by looking the new keys up in three of the indexes. */
  lemma LookupsDecide(names: seq<string>, byFullName: map<string, Metadata>, byTypeUrl: map<string, Metadata>,
                      bySchema: map<Schema, Metadata>, byDescriptor: map<nat, Metadata>,
                      schema: Schema, explicitUrl: Explicit)
    requires Consistent(names, byFullName, byTypeUrl, bySchema, byDescriptor)
    ensures forall n :: n in names ==> n in byFullName
    ensures Acceptable(Entries(names, byFullName), schema, explicitUrl) <==>
            var r := Resolve(schema, explicitUrl);
            r.Resolved? && schema.typeName !in byFullName && r.url !in byTypeUrl && schema.proto !in byDescriptor
    ensures var list, r := Entries(names, byFullName), Resolve(schema, explicitUrl);
            && (r.Malformed? ==> Explains(list, schema, explicitUrl, BadUrl))
            && (r.Resolved? && r.url in byTypeUrl && (explicitUrl.Url? || schema.typeName !in byFullName)
                ==> Explains(list, schema, explicitUrl, DuplicateUrl(r.url)))
            && (r.Resolved? && schema.typeName in byFullName && (explicitUrl.Derived? || r.url !in byTypeUrl)
                ==> Explains(list, schema, explicitUrl, DuplicateName(schema.typeName)))
            && (r.Resolved? && schema.proto in byDescriptor && schema.typeName !in byFullName && r.url !in byTypeUrl
                ==> Explains(list, schema, explicitUrl, IdentityConflict(schema.proto)))
  {
    var list, r := Entries(names, byFullName), Resolve(schema, explicitUrl);
    IndexMember(byFullName, list, NameOf, schema.typeName);
    IndexMember(byDescriptor, list, DescriptorOf, schema.proto);
    if r.Resolved? { IndexMember(byTypeUrl, list, UrlOf, r.url); }
    AcceptableByIndex(Entries(names, byFullName), byFullName, byTypeUrl, byDescriptor, schema, explicitUrl);
  }

  lemma RegisterKeeps(names: seq<string>, byFullName: map<string, Metadata>, byTypeUrl: map<string, Metadata>,
                      bySchema: map<Schema, Metadata>, byDescriptor: map<nat, Metadata>,
                      schema: Schema, explicitUrl: Explicit, md: Metadata)
    requires Consistent(names, byFullName, byTypeUrl, bySchema, byDescriptor)
    requires Acceptable(Entries(names, byFullName), schema, explicitUrl)
    requires Resolve(schema, explicitUrl) == Resolved(md.typeUrl) && md == MetadataOf(schema, md.typeUrl)
    ensures Consistent(names + [schema.typeName], byFullName[schema.typeName := md], byTypeUrl[md.typeUrl := md],
                       bySchema[schema := md], byDescriptor[schema.proto := md])
    ensures Entries(names + [schema.typeName], byFullName[schema.typeName := md]) == Entries(names, byFullName) + [md]
  {
    hide Indexes, Unique, Entries, Acceptable, Resolve;
    var list := Entries(names, byFullName);
    LookupsDecide(names, byFullName, byTypeUrl, bySchema, byDescriptor, schema, explicitUrl);
    NewSchema(list, bySchema, schema, explicitUrl);
    PrefixRebuildsUrl(schema, explicitUrl);
    IndexAppend(byFullName, list, NameOf, md);
    IndexAppend(byTypeUrl, list, UrlOf, md);
    IndexAppend(bySchema, list, SchemaOf, md);
    IndexAppend(byDescriptor, list, DescriptorOf, md);
    UniqueAppend(list, schema, explicitUrl, md);
    EntriesAppend(names, byFullName, schema.typeName, md);
  }

  class Registry {
    var names: seq<string> // keys of the name index in insertion order
    var byFullName: map<string, Metadata>
    var byTypeUrl: map<string, Metadata>
    var bySchema: map<Schema, Metadata>
    var bySchemaDescriptor: map<nat, Metadata>

    /** All registered metadata in registration order. */
    function List(): seq<Metadata>
      requires Valid()
      reads this
    {
      Entries(names, byFullName)
    }

    ghost predicate Valid()
      reads this
    {
      Consistent(names, byFullName, byTypeUrl, bySchema, bySchemaDescriptor)
    }

    /** Whatever is listed is found by its name, and nothing else is. */
    function FindByFullName(fullTypeName: string): (r: Option<Metadata>)
      requires Valid()
      reads this
      ensures r.Some? ==> r.value in List() && r.value.fullTypeName == fullTypeName
      ensures r.None? ==> forall md :: md in List() ==> md.fullTypeName != fullTypeName
    {
      if fullTypeName in byFullName then Some(byFullName[fullTypeName]) else None
    }

    function FindByTypeUrl(typeUrl: string): (r: Option<Metadata>)
      requires Valid()
      reads this
      ensures r.Some? ==> r.value in List() && r.value.typeUrl == typeUrl
      ensures r.None? ==> forall md :: md in List() ==> md.typeUrl != typeUrl
    {
      if typeUrl in byTypeUrl then Some(byTypeUrl[typeUrl]) else None
    }

    function FindBySchema(schema: Schema): (r: Option<Metadata>)
      requires Valid()
      reads this
      ensures r.Some? ==> r.value in List() && r.value.schema == schema
      ensures r.None? ==> forall md :: md in List() ==> md.schema != schema
    {
      if schema in bySchema then Some(bySchema[schema]) else None
    }

    constructor ()
      ensures Valid() && List() == []
    {
      names, byFullName, byTypeUrl, bySchema, bySchemaDescriptor := [], map[], map[], map[], map[];
    }

    /** Adds one schema to all four indexes, or changes none of them. */
    method Register(schema: Schema, explicitUrl: Explicit) returns (r: Registration)
      requires Valid()
      modifies this
      ensures Valid()
      ensures r.Registered? <==> Acceptable(old(List()), schema, explicitUrl)
      ensures r.Registered? ==>
                && List() == old(List()) + [r.metadata]
                && Resolve(schema, explicitUrl) == Resolved(r.metadata.typeUrl)
                && r.metadata == MetadataOf(schema, r.metadata.typeUrl)
      ensures r.Rejected? ==> unchanged(this) && Explains(List(), schema, explicitUrl, r.error)
    {
      hide Consistent, Entries, Acceptable, Explains;
      LookupsDecide(names, byFullName, byTypeUrl, bySchema, bySchemaDescriptor, schema, explicitUrl);
      var resolved := Resolve(schema, explicitUrl);
      if resolved.Malformed? {
        return Rejected(BadUrl);
      }
      var url := resolved.url;
      if explicitUrl.Url? && url in byTypeUrl {
        return Rejected(DuplicateUrl(url));
      }
      if schema.typeName in byFullName {
        return Rejected(DuplicateName(schema.typeName));
      }
      if url in byTypeUrl {
        return Rejected(DuplicateUrl(url));
      }
      if schema.proto in bySchemaDescriptor {
        return Rejected(IdentityConflict(schema.proto));
      }
      var md := MetadataOf(schema, url);
      RegisterKeeps(names, byFullName, byTypeUrl, bySchema, bySchemaDescriptor, schema, explicitUrl, md);
      names := names + [schema.typeName];
      byFullName := byFullName[schema.typeName := md];
      byTypeUrl := byTypeUrl[url := md];
      bySchema := bySchema[schema := md];
      bySchemaDescriptor := bySchemaDescriptor[schema.proto := md];
      return Registered(md);
    }
  }

  ghost function DerivedMetadata(schemas: seq<Schema>): seq<Metadata> {
    if schemas == [] then []
    else
      var last := schemas[|schemas| - 1];
      DerivedMetadata(schemas[..|schemas| - 1]) + [MetadataOf(last, Derive(last))]
  }

  lemma DerivedMetadataAppend(schemas: seq<Schema>, k: nat)
    requires k < |schemas|
    ensures DerivedMetadata(schemas[..k + 1]) == DerivedMetadata(schemas[..k]) + [MetadataOf(schemas[k], Derive(schemas[k]))]
  {
    assert schemas[..k + 1][..k] == schemas[..k];
  }

  /** A schema rejected after some others clashes with one of them. */
  lemma {:induction false} RejectionIsClash(schemas: seq<Schema>, k: nat)
    requires k < |schemas| && !Acceptable(DerivedMetadata(schemas[..k]), schemas[k], Derived)
    ensures !Unique(DerivedMetadata(schemas[..k + 1]))
  {
    DerivedMetadataAppend(schemas, k);
    var before := DerivedMetadata(schemas[..k]);
    var md := MetadataOf(schemas[k], Derive(schemas[k]));
    var other :| other in before && Clash(other, md);
    var i :| 0 <= i < |before| && before[i] == other;
    assert Clash((before + [md])[i], (before + [md])[|before|]);
  }

  lemma {:induction false} ClashRemains(schemas: seq<Schema>, k: nat)
    requires k <= |schemas| && !Unique(DerivedMetadata(schemas[..k]))
    ensures !Unique(DerivedMetadata(schemas))
    decreases |schemas| - k
  {
    hide Clash, Derive, DerivedMetadata, MetadataOf;
    if k < |schemas| {
      DerivedMetadataAppend(schemas, k);
      var shorter, longer := DerivedMetadata(schemas[..k]), DerivedMetadata(schemas[..k + 1]);
      var i, j :| 0 <= i < j < |shorter| && Clash(shorter[i], shorter[j]);
      assert longer[i] == shorter[i] && longer[j] == shorter[j];
      ClashRemains(schemas, k + 1);
    } else {
      assert schemas[..k] == schemas;
    }
  }

  /** Composes modules and registers their schemas; either stage may reject the modules. */
  method From(h: Heap, roots: seq<ModuleId>) returns (composed: Outcome<Registry>, rejected: bool)
    requires Closed(h) && forall m :: m in roots ==> m in h
    ensures composed.Composed? <==> Composable(h, roots)
    ensures composed.Composed? ==> (rejected <==> !Unique(DerivedMetadata(SchemasOf(h, PostOrder(h, roots)))))
    ensures composed.Composed? && !rejected ==>
              && fresh(composed.value) && composed.value.Valid()
              && composed.value.List() == DerivedMetadata(SchemasOf(h, PostOrder(h, roots)))
  {
    var ordered := ComposeAll(h, roots);
    if ordered.Failed? {
      return Failed(ordered.error), false;
    }
    var schemas := ordered.value;
    var registry := new Registry();
    for i := 0 to |schemas|
      invariant fresh(registry) && registry.Valid() && registry.List() == DerivedMetadata(schemas[..i])
    {
      DerivedMetadataAppend(schemas, i);
      var r := registry.Register(schemas[i], Derived);
      if r.Rejected? {
        RejectionIsClash(schemas, i);
        ClashRemains(schemas, i + 1);
        return Composed(registry), true;
      }
    }
    assert schemas[..|schemas|] == schemas;
    return Composed(registry), false;
  }
}
