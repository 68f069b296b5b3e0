// Which cached HTTP responses a mutation drops: `getCacheDependents`,
// `invalidateResourceCaches` and `invalidateMutationCaches` against the tags that
// the interceptor gives to each response.
module CacheInvalidation {
  import opened Prelude

  datatype Tag = ListTag(resource: string) | RecordTag(resource: string, id: string) | RecordsTag(resource: string)
               | AnyRoleTag | RoleTag(role: string)

  // A property refers to a resource, or hydrates through a junction resource.
  datatype Property = Property(reference: Option<string>, through: Option<string>)

  datatype Resource = Resource(id: string, properties: seq<Property>)

  // What a cached response shows: a list, or one record.
  datatype Response = Response(resource: string, record: Option<string>, role: Option<string>)

  datatype Invalidates = Undeclared | Own | These(resources: seq<string>)

  predicate RefersTo(p: Property, resource: string) {
    resource != "" && (p.reference == Some(resource) || p.through == Some(resource))
  }

  // `dependent` is another resource whose responses embed data of `resource`.
  ghost predicate DependsOn(resources: seq<Resource>, dependent: string, resource: string) {
    dependent != resource && exists r, p ::
      r in resources && r.id == dependent && p in r.properties && RefersTo(p, resource)
  }

  function Bucket(m: map<string, set<string>>, key: string): set<string> {
    if key in m then m[key] else {}
  }

  ghost predicate IsDependents(m: map<string, set<string>>, resources: seq<Resource>) {
    forall resource, dependent :: dependent in Bucket(m, resource) <==> DependsOn(resources, dependent, resource)
  }

  function Add(m: map<string, set<string>>, dependency: Option<string>, dependent: string): map<string, set<string>> {
    if dependency.None? || dependency.value == "" || dependency.value == dependent then m
    else m[dependency.value := Bucket(m, dependency.value) + {dependent}]
  }

  // The tags of a response. Responses carry role tags when roles are a resource.
  function TagsOf(r: Response, roles: Option<string>): set<Tag> {
    (if r.record.Some? then {RecordTag(r.resource, r.record.value), RecordsTag(r.resource)} else {ListTag(r.resource)})
    + (if roles.None? then {} else {AnyRoleTag} + if r.role.Some? then {RoleTag(r.role.value)} else {})
  }

  function ResourceTags(resource: string, ids: seq<string>, dependents: set<string>): set<Tag> {
    {ListTag(resource)}
    + (if ids == [] then {RecordsTag(resource)} else set id | id in ids :: RecordTag(resource, id))
    + (set d | d in dependents :: ListTag(d)) + (set d | d in dependents :: RecordsTag(d))
  }

  lemma AddHas(m: map<string, set<string>>, dependency: Option<string>, dependent: string)
    ensures forall k, d :: d in Bucket(Add(m, dependency, dependent), k)
                <==> d in Bucket(m, k) || (dependency == Some(k) && k != "" && k != dependent && d == dependent)
  {
  }

  // The edges that the first `n` properties of a resource make.
  ghost predicate FromProperties(r: Resource, n: nat, dependent: string, resource: string)
    requires n <= |r.properties|
  {
    dependent == r.id && dependent != resource && exists j :: 0 <= j < n && RefersTo(r.properties[j], resource)
  }

  ghost predicate FromResources(resources: seq<Resource>, n: nat, dependent: string, resource: string)
    requires n <= |resources|
  {
    exists i :: 0 <= i < n && FromProperties(resources[i], |resources[i].properties|, dependent, resource)
  }

  lemma FromAllResources(resources: seq<Resource>, dependent: string, resource: string)
    ensures FromResources(resources, |resources|, dependent, resource) <==> DependsOn(resources, dependent, resource)
  {
  }

  method AddProperties(m: map<string, set<string>>, r: Resource) returns (m': map<string, set<string>>)
    ensures forall k, d :: d in Bucket(m', k) <==> d in Bucket(m, k) || FromProperties(r, |r.properties|, d, k)
  {
    hide Bucket, Add;
    m' := m;
    var j := 0;
    while j < |r.properties|
      invariant 0 <= j <= |r.properties|
      invariant forall k, d :: d in Bucket(m', k) <==> d in Bucket(m, k) || FromProperties(r, j, d, k)
    {
      var p := r.properties[j];
      AddHas(m', p.reference, r.id);
      ghost var m0 := m';
      m' := Add(m', p.reference, r.id);
      AddHas(m', p.through, r.id);
      m' := Add(m', p.through, r.id);
      forall k, d
        ensures FromProperties(r, j + 1, d, k) <==>
          FromProperties(r, j, d, k) || (d == r.id && d != k && RefersTo(p, k))
      {
        assert r.properties[j] == p;
      }
      j := j + 1;
    }
  }

  datatype Mutation = Mutation(
    resource: string, builtIn: bool, get: bool, invalidates: Invalidates,
    recordId: string, recordIds: seq<string>, responseId: string)

  class ModernAdmin {
    const resources: seq<Resource>
    const roles: Option<string>
    var cacheDependents: Option<map<string, set<string>>>
    var cached: map<Response, set<Tag>>

    ghost predicate Valid()
      reads this
    {
      && (cacheDependents.Some? ==> IsDependents(cacheDependents.value, resources))
      && forall r | r in cached :: cached[r] == TagsOf(r, roles)
    }

    method GetCacheDependents(resource: string) returns (dependents: set<string>)
      requires Valid()
      modifies this`cacheDependents
      ensures Valid()
      ensures forall d :: d in dependents <==> DependsOn(resources, d, resource)
    {
      hide DependsOn, TagsOf;
      if cacheDependents.None? {
        var m: map<string, set<string>> := map[];
        var i := 0;
        while i < |resources|
          invariant 0 <= i <= |resources|
          invariant forall k, d :: d in Bucket(m, k) <==> FromResources(resources, i, d, k)
        {
          m := AddProperties(m, resources[i]);
          i := i + 1;
        }
        forall k, d
          ensures d in Bucket(m, k) <==> DependsOn(resources, d, k)
        {
          FromAllResources(resources, d, k);
        }
        cacheDependents := Some(m);
      }
      dependents := Bucket(cacheDependents.value, resource);
    }

    // `invalidateTags`: every response with one of the tags goes.
    method InvalidateTags(tags: set<Tag>)
      modifies this`cached
      ensures forall r :: r in cached <==> r in old(cached) && old(cached)[r] !! tags
      ensures forall r | r in cached :: cached[r] == old(cached)[r]
    {
      cached := map r | r in cached && cached[r] !! tags :: cached[r];
    }

    method InvalidateResourceCaches(resource: string, ids: seq<string>)
      requires Valid()
      modifies this`cached, this`cacheDependents
      ensures Valid()
      ensures forall r :: r in cached <==> r in old(cached) && !Stale(r, resource, Elems(ids), resources)
    {
      hide DependsOn, TagsOf;
      var dependents := GetCacheDependents(resource);
      var tags := {ListTag(resource)};
      if |ids| > 0 {
        tags := tags + set id | id in ids :: RecordTag(resource, id);
      } else {
        tags := tags + {RecordsTag(resource)};
      }
      tags := tags + (set d | d in dependents :: ListTag(d)) + (set d | d in dependents :: RecordsTag(d));
      assert tags == ResourceTags(resource, ids, dependents);
      forall r: Response
        ensures TagsOf(r, roles) !! tags <==> !Stale(r, resource, Elems(ids), resources)
      {
        TagsHit(r, roles, resource, ids, dependents, resources);
      }
      InvalidateTags(tags);
    }

    constructor (resources: seq<Resource>, roles: Option<string>)
      ensures Valid() && cached == map[] && this.resources == resources && this.roles == roles
    {
      this.resources, this.roles, cacheDependents, cached := resources, roles, None, map[];
    }

    // The interceptor stores a response under its tags.
    method Store(r: Response)
      requires Valid()
      modifies this`cached
      ensures Valid() && cached == old(cached)[r := TagsOf(r, roles)]
      ensures HitExactlyWhenStale(cached[r], r, resources)
    {
      var tags := if r.record.Some? then {RecordTag(r.resource, r.record.value), RecordsTag(r.resource)} else {ListTag(r.resource)};
      if roles.Some? {
        tags := tags + {AnyRoleTag};
        if r.role.Some? {
          tags := tags + {RoleTag(r.role.value)};
        }
      }
      cached := cached[r := tags];
      StoredIsHit(r, roles, resources);
    }

    // `invalidateRolePermissionsCache`, of one role or of all.
    method InvalidateRolePermissions(role: Option<string>)
      requires Valid()
      modifies this`cached
      ensures Valid()
      ensures forall r :: r in cached <==> r in old(cached) && !(roles.Some? && (role.None? || r.role == role))
    {
      hide TagsOf;
      forall r: Response
        ensures TagsOf(r, roles) !! {RolesTag(role)} <==> !(roles.Some? && (role.None? || r.role == role))
      {
        RoleHit(r, roles, role);
      }
      InvalidateTags({RolesTag(role)});
    }

    method InvalidateMutationCaches(m: Mutation)
      requires Valid()
      modifies this`cached, this`cacheDependents
      ensures Valid()
      ensures forall r :: r in cached <==> r in old(cached) && !Dropped(r, m, resources, roles)
    {
      hide Stale, TagsOf;
      if !m.builtIn && m.invalidates.Undeclared? {
        return;
      }
      if m.builtIn && m.get {
        return;
      }
      var ids := RecordIds(m);
      var targets := Targets(m);
      var i := 0;
      while i < |targets|
        invariant 0 <= i <= |targets| && Valid()
        invariant forall r :: r in cached <==>
          r in old(cached) && forall t | t in targets[..i] :: !Stale(r, t, IdsFor(m, t), resources)
      {
        var target := targets[i];
        assert forall t :: t in targets[..i + 1] <==> t in targets[..i] || t == target;
        assert Elems<string>([]) == {};
        assert Elems(if target == m.resource then ids else []) == IdsFor(m, target);
        InvalidateResourceCaches(target, if target == m.resource then ids else []);
        i := i + 1;
      }
      assert targets[..i] == targets;
      assert forall t :: t in targets <==> t in Elems(targets);
      if roles.Some? && roles.value in targets {
        InvalidateRolePermissions(None);
      }
    }
  }

  function RolesTag(role: Option<string>): Tag {
    if role.Some? then RoleTag(role.value) else AnyRoleTag
  }

  // A response is hit by its role, and by all roles, when roles are a resource.
  lemma RoleHit(r: Response, roles: Option<string>, role: Option<string>)
    ensures TagsOf(r, roles) !! {RolesTag(role)} <==> !(roles.Some? && (role.None? || r.role == role))
  {
  }

  // The records that a mutation is known to have touched.
  function KnownIds(m: Mutation): set<string> {
    NonEmpty(m.recordId) + (set id | id in m.recordIds && id != "") + NonEmpty(m.responseId)
  }

  method RecordIds(m: Mutation) returns (ids: seq<string>)
    ensures Elems(ids) == KnownIds(m)
  {
    hide Elems;
    ids := [];
    ElemsOfNone();
    ids := Adjoin(ids, m.recordId);
    var i := 0;
    while i < |m.recordIds|
      invariant 0 <= i <= |m.recordIds|
      invariant Elems(ids) == NonEmpty(m.recordId) + set id | id in m.recordIds[..i] && id != ""
    {
      assert forall id :: id in m.recordIds[..i + 1] <==> id in m.recordIds[..i] || id == m.recordIds[i];
      ids := Adjoin(ids, m.recordIds[i]);
      i := i + 1;
    }
    assert m.recordIds[..i] == m.recordIds;
    ids := Adjoin(ids, m.responseId);
  }

  lemma ElemsOfNone()
    ensures Elems<string>([]) == {}
  {
  }

  function NonEmpty(id: string): set<string> {
    if id == "" then {} else {id}
  }

  // Adding to a `Set` what is not the empty string.
  method Adjoin(ids: seq<string>, id: string) returns (more: seq<string>)
    ensures Elems(more) == Elems(ids) + NonEmpty(id)
  {
    ElemsPush(ids, id);
    more := if id == "" || id in ids then ids else ids + [id];
  }

  function TargetSet(m: Mutation): set<string> {
    (if m.builtIn || m.invalidates.Own? then {m.resource} else {})
    + if m.invalidates.These? then Elems(m.invalidates.resources) else {}
  }

  method Targets(m: Mutation) returns (targets: seq<string>)
    ensures Elems(targets) == TargetSet(m)
  {
    targets := if m.builtIn || m.invalidates.Own? then [m.resource] else [];
    if m.invalidates.These? {
      targets := targets + m.invalidates.resources;
    }
  }

  function IdsFor(m: Mutation, target: string): set<string> {
    if target == m.resource then KnownIds(m) else {}
  }

  // A response that a mutation of the records `ids` of `resource`, or of any
  // record when none is named, drops.
  ghost predicate Stale(r: Response, resource: string, ids: set<string>, resources: seq<Resource>) {
    || (r.resource == resource && (r.record.None? || ids == {} || r.record.value in ids))
    || DependsOn(resources, r.resource, resource)
  }

  ghost predicate Dropped(r: Response, m: Mutation, resources: seq<Resource>, roles: Option<string>) {
    && (m.builtIn || !m.invalidates.Undeclared?)
    && !(m.builtIn && m.get)
    && ((exists t :: t in TargetSet(m) && Stale(r, t, IdsFor(m, t), resources)) || (roles.Some? && roles.value in TargetSet(m)))
  }

  lemma TagsHit(r: Response, roles: Option<string>, resource: string, ids: seq<string>, dependents: set<string>,
                resources: seq<Resource>)
    requires forall d :: d in dependents <==> DependsOn(resources, d, resource)
    ensures TagsOf(r, roles) !! ResourceTags(resource, ids, dependents) <==> !Stale(r, resource, Elems(ids), resources)
  {
    hide DependsOn;
    var of, tags := TagsOf(r, roles), ResourceTags(resource, ids, dependents);
    assert ids == [] <==> Elems(ids) == {} by {
      if ids != [] {
        assert ids[0] in Elems(ids);
      }
    }
    if Stale(r, resource, Elems(ids), resources) {
      var t :=
        if r.record.None? then ListTag(r.resource)
        else if r.resource == resource && ids != [] then RecordTag(resource, r.record.value)
        else RecordsTag(r.resource);
      assert RecordsTag(r.resource) in of || r.record.None?;
      assert (t in of && t in tags) || (RecordsTag(r.resource) in of && RecordsTag(r.resource) in tags);
    }
  }

  // Whatever is invalidated: tags that meet it exactly when the response is stale.
  ghost predicate HitExactlyWhenStale(tags: set<Tag>, r: Response, resources: seq<Resource>) {
    forall resource, ids, dependents | forall d :: d in dependents <==> DependsOn(resources, d, resource) ::
      tags !! ResourceTags(resource, ids, dependents) <==> !Stale(r, resource, Elems(ids), resources)
  }

  lemma StoredIsHit(r: Response, roles: Option<string>, resources: seq<Resource>)
    ensures HitExactlyWhenStale(TagsOf(r, roles), r, resources)
  {
    hide DependsOn, TagsOf, ResourceTags, Stale;
    forall resource, ids, dependents | forall d :: d in dependents <==> DependsOn(resources, d, resource)
      ensures TagsOf(r, roles) !! ResourceTags(resource, ids, dependents) <==>
        !Stale(r, resource, Elems(ids), resources)
    {
      TagsHit(r, roles, resource, ids, dependents, resources);
    }
  }

  // An identifier by which a mutation names a record.
  predicate Named(m: Mutation, id: string) {
    id != "" && (id == m.recordId || id in m.recordIds || id == m.responseId)
  }

  predicate NamesNothing(m: Mutation) {
    m.recordId == "" && m.responseId == "" && forall id | id in m.recordIds :: id == ""
  }

  // A property of another resource holds the resource's identifier, or lists what a
  // junction of it relates.
  ghost predicate Embeds(resources: seq<Resource>, dependent: string, resource: string) {
    dependent != resource && resource != "" && exists q, p ::
      q in resources && q.id == dependent && p in q.properties
        && (p.reference == Some(resource) || p.through == Some(resource))
  }

  // A built-in mutation drops exactly the lists of its resource, the records that it
  // names or all when it names none, and everything of the resources that embed it.
  lemma DropsPrecisely(r: Response, m: Mutation, resources: seq<Resource>, roles: Option<string>)
    requires m.builtIn && !m.get && m.invalidates.Undeclared? && roles != Some(m.resource)
    ensures Dropped(r, m, resources, roles) <==>
      if r.resource == m.resource then r.record.None? || NamesNothing(m) || Named(m, r.record.value)
      else Embeds(resources, r.resource, m.resource)
  {
    assert TargetSet(m) == {m.resource};
    Known(m);
    EmbedsExactly(resources, r.resource, m.resource);
    hide DependsOn, KnownIds, Embeds, NamesNothing, Named;
    assert Stale(r, m.resource, IdsFor(m, m.resource), resources) <==>
      if r.resource == m.resource then r.record.None? || KnownIds(m) == {} || r.record.value in KnownIds(m)
      else DependsOn(resources, r.resource, m.resource);
  }

  lemma EmbedsExactly(resources: seq<Resource>, dependent: string, resource: string)
    ensures DependsOn(resources, dependent, resource) <==> Embeds(resources, dependent, resource)
  {
    if Embeds(resources, dependent, resource) {
      var q, p :| q in resources && q.id == dependent && p in q.properties
        && (p.reference == Some(resource) || p.through == Some(resource));
      assert RefersTo(p, resource);
    }
  }

  lemma Known(m: Mutation)
    ensures forall id :: id in KnownIds(m) <==> Named(m, id)
    ensures KnownIds(m) == {} <==> NamesNothing(m)
  {
    if m.recordId != "" {
      assert m.recordId in KnownIds(m);
    } else if m.responseId != "" {
      assert m.responseId in KnownIds(m);
    } else if id :| id in m.recordIds && id != "" {
      assert id in KnownIds(m);
    }
  }

  // The built-in mutation of a resource that a mutation declares: its records are
  // known only when it is the mutation's own resource.
  function BuiltInOf(m: Mutation, resource: string): Mutation {
    if resource == m.resource then m.(builtIn := true, get := false, invalidates := Undeclared)
    else Mutation(resource, true, false, Undeclared, "", [], "")
  }

  // What any mutation drops, by the built-in ones: a built-in mutation its own, a
  // custom action only what it declares, and both also what the declaration lists.
  lemma DropsAsBuiltIn(r: Response, m: Mutation, resources: seq<Resource>, roles: Option<string>)
    ensures Dropped(r, m, resources, roles) <==>
      && !(m.builtIn && m.get)
      && (|| ((m.builtIn || m.invalidates.Own?) && Dropped(r, BuiltInOf(m, m.resource), resources, roles))
          || (m.invalidates.These?
              && exists t :: t in m.invalidates.resources && Dropped(r, BuiltInOf(m, t), resources, roles)))
  {
    hide Stale;
    forall t
      ensures Dropped(r, BuiltInOf(m, t), resources, roles) <==>
        Stale(r, t, IdsFor(m, t), resources) || roles == Some(t)
    {
      BuiltInDrops(r, m, t, resources, roles);
    }
  }

  lemma BuiltInDrops(r: Response, m: Mutation, t: string, resources: seq<Resource>, roles: Option<string>)
    ensures Dropped(r, BuiltInOf(m, t), resources, roles) <==> Stale(r, t, IdsFor(m, t), resources) || roles == Some(t)
  {
    hide Stale;
    var b := BuiltInOf(m, t);
    assert TargetSet(b) == {t} && KnownIds(b) == IdsFor(m, t);
  }

  // A resource that refers to itself is not its own dependent: the responses for
  // its other records survive, though they may embed a record that was changed.
  lemma SelfReferenceSurvives(r: Response, m: Mutation, resource: Resource, p: Property, resources: seq<Resource>,
                              roles: Option<string>)
    requires m.builtIn && !m.get && m.invalidates.Undeclared? && roles != Some(m.resource) && !NamesNothing(m)
    requires resource in resources && resource.id == m.resource && p in resource.properties && RefersTo(p, m.resource)
    ensures Dropped(Response(m.resource, r.record, r.role), m, resources, roles) <==>
      r.record.None? || Named(m, r.record.value)
  {
    DropsPrecisely(Response(m.resource, r.record, r.role), m, resources, roles);
  }

  // A mutation of the resource that holds the roles drops every response.
  lemma RolesDropAll(r: Response, m: Mutation, resources: seq<Resource>, roles: Option<string>)
    requires m.builtIn && !m.get && roles == Some(m.resource)
    ensures Dropped(r, m, resources, roles)
  {
  }
}
