/** How many spans, log records or metrics a decoded batch carries, and when counting them raises. */
module RecordCount {
  import opened JsonValues
  import opened Wrappers

  /** Where a signal keeps its records: the resource list, the scope list in it, the leaf list in that. */
  datatype Shape = Shape(resources: string, scopes: string, leaves: string)

  type Document = map<string, Json>

  function Get(fields: Document, key: string): Json {
    if key in fields then fields[key] else Null
  }

  /** `value or []` iterated for mappings. What is truthy and no list either cannot be iterated, or
      yields keys or characters, which have no `get`. */
  function Elements(value: Json, isZero: string -> bool): Option<seq<Json>> {
    if !value.Truthy(isZero) then Some([])
    else if value.List? then Some(value.items)
    else None
  }

  /** `len(value or [])`. */
  function Length(value: Json, isZero: string -> bool): Option<nat> {
    if !value.Truthy(isZero) then Some(0)
    else
      match value
      case List(items) => Some(|items|)
      case Dict(fields) => Some(|fields|)
      case Str(text) => Some(|text|)
      case _ => None
  }

  function Plus(a: Option<nat>, b: Option<nat>): Option<nat> {
    if a.None? || b.None? then None else Some(a.value + b.value)
  }

  function CountScopes(scopes: seq<Json>, shape: Shape, isZero: string -> bool): Option<nat> {
    if |scopes| == 0 then Some(0)
    else
      var last := scopes[|scopes| - 1];
      Plus(CountScopes(scopes[..|scopes| - 1], shape, isZero),
           if last.Dict? then Length(Get(last.fields, shape.leaves), isZero) else None)
  }

  function CountResource(resource: Json, shape: Shape, isZero: string -> bool): Option<nat> {
    if !resource.Dict? then None
    else
      match Elements(Get(resource.fields, shape.scopes), isZero)
      case None => None
      case Some(scopes) => CountScopes(scopes, shape, isZero)
  }

  function CountResources(resources: seq<Json>, shape: Shape, isZero: string -> bool): Option<nat> {
    if |resources| == 0 then Some(0)
    else
      Plus(CountResources(resources[..|resources| - 1], shape, isZero),
           CountResource(resources[|resources| - 1], shape, isZero))
  }

  /** `None` is the exception. */
  function CountRecords(document: Document, shape: Shape, isZero: string -> bool): Option<nat> {
    match Elements(Get(document, shape.resources), isZero)
    case None => None
    case Some(resources) => CountResources(resources, shape, isZero)
  }

  // ---- when it raises -------------------------------------------------------------------

  /** What stands under a key is this list, or missing or falsy and the list is empty. */
  ghost predicate Lists(fields: Document, key: string, items: seq<Json>, isZero: string -> bool) {
    if key in fields && !fields[key].Falsy(isZero) then fields[key] == List(items) else items == []
  }

  /** What stands under a key has a length, or is missing or falsy. */
  ghost predicate Measured(fields: Document, key: string, isZero: string -> bool) {
    key in fields && !fields[key].Falsy(isZero) ==> fields[key].List? || fields[key].Dict? || fields[key].Str?
  }

  ghost predicate ScopeShaped(scope: Json, shape: Shape, isZero: string -> bool) {
    scope.Dict? && Measured(scope.fields, shape.leaves, isZero)
  }

  ghost predicate ResourceShaped(resource: Json, shape: Shape, isZero: string -> bool) {
    && resource.Dict?
    && exists scopes :: Lists(resource.fields, shape.scopes, scopes, isZero)
                        && forall s :: s in scopes ==> ScopeShaped(s, shape, isZero)
  }

  /** Every resource and every scope is a mapping, each list of them is one, or missing, or falsy, and
      so is what is measured. */
  ghost predicate WellShaped(document: Document, shape: Shape, isZero: string -> bool) {
    exists resources :: Lists(document, shape.resources, resources, isZero)
                        && forall r :: r in resources ==> ResourceShaped(r, shape, isZero)
  }

  lemma ElementsListed(fields: Document, key: string, items: seq<Json>, isZero: string -> bool)
    ensures Elements(Get(fields, key), isZero) == Some(items) <==> Lists(fields, key, items, isZero)
  {
  }

  lemma LengthMeasured(fields: Document, key: string, isZero: string -> bool)
    ensures Length(Get(fields, key), isZero).Some? <==> Measured(fields, key, isZero)
  {
  }

  lemma {:induction false} ScopesCounted(scopes: seq<Json>, shape: Shape, isZero: string -> bool)
    ensures CountScopes(scopes, shape, isZero).Some? <==> forall s :: s in scopes ==> ScopeShaped(s, shape, isZero)
  {
    if scopes != [] {
      var rest, last := scopes[..|scopes| - 1], scopes[|scopes| - 1];
      ScopesCounted(rest, shape, isZero);
      assert scopes == rest + [last] && last in scopes;
      if last.Dict? {
        LengthMeasured(last.fields, shape.leaves, isZero);
      }
      hide Length, Measured;
    }
  }

  lemma ResourceCounted(resource: Json, shape: Shape, isZero: string -> bool)
    ensures CountResource(resource, shape, isZero).Some? <==> ResourceShaped(resource, shape, isZero)
  {
    hide CountScopes, Elements, Lists, ScopeShaped;
    if resource.Dict? {
      forall items ensures
        Elements(Get(resource.fields, shape.scopes), isZero) == Some(items) <==>
        Lists(resource.fields, shape.scopes, items, isZero)
      {
        ElementsListed(resource.fields, shape.scopes, items, isZero);
      }
      if Elements(Get(resource.fields, shape.scopes), isZero).Some? {
        ScopesCounted(Elements(Get(resource.fields, shape.scopes), isZero).value, shape, isZero);
      }
    }
  }

  lemma {:induction false} ResourcesCounted(resources: seq<Json>, shape: Shape, isZero: string -> bool)
    ensures CountResources(resources, shape, isZero).Some? <==>
            forall r :: r in resources ==> ResourceShaped(r, shape, isZero)
  {
    if resources != [] {
      var rest, last := resources[..|resources| - 1], resources[|resources| - 1];
      ResourcesCounted(rest, shape, isZero);
      ResourceCounted(last, shape, isZero);
      hide CountResource, ResourceShaped;
      assert resources == rest + [last] && last in resources;
    }
  }

  /** Counting raises exactly for a document that is not shaped like its signal's. */
  lemma CountedExactlyWhen(document: Document, shape: Shape, isZero: string -> bool)
    ensures CountRecords(document, shape, isZero).Some? <==> WellShaped(document, shape, isZero)
  {
    hide CountResources, Elements, Lists, ResourceShaped;
    forall items ensures
      Elements(Get(document, shape.resources), isZero) == Some(items) <==>
      Lists(document, shape.resources, items, isZero)
    {
      ElementsListed(document, shape.resources, items, isZero);
    }
    if Elements(Get(document, shape.resources), isZero).Some? {
      ResourcesCounted(Elements(Get(document, shape.resources), isZero).value, shape, isZero);
    }
  }

  /** One resource that is no mapping is enough. */
  lemma MisshapenRaises(document: Document, shape: Shape, isZero: string -> bool, resources: seq<Json>, i: nat)
    requires Get(document, shape.resources) == List(resources) && i < |resources| && !resources[i].Dict?
    ensures CountRecords(document, shape, isZero).None?
  {
    CountedExactlyWhen(document, shape, isZero);
    assert resources[i] in resources;
    hide CountRecords;
  }

  // ---- what is counted ------------------------------------------------------------------

  /** Where a record stands: which resource, which scope of it, and which place in the scope's leaves. */
  datatype Place = Place(resource: nat, scope: nat, leaf: nat)

  ghost predicate IsLeaf(scope: Json, shape: Shape, leaf: nat) {
    scope.Dict? && shape.leaves in scope.fields &&
    match scope.fields[shape.leaves]
    case List(items) => leaf < |items|
    case Dict(fields) => leaf < |fields|
    case Str(text) => leaf < |text|
    case _ => false
  }

  ghost predicate IsScopeLeaf(resource: Json, shape: Shape, scope: nat, leaf: nat) {
    && resource.Dict? && shape.scopes in resource.fields && resource.fields[shape.scopes].List?
    && scope < |resource.fields[shape.scopes].items| && IsLeaf(resource.fields[shape.scopes].items[scope], shape, leaf)
  }

  ghost predicate IsRecord(document: Document, shape: Shape, p: Place) {
    && shape.resources in document && document[shape.resources].List?
    && p.resource < |document[shape.resources].items|
    && IsScopeLeaf(document[shape.resources].items[p.resource], shape, p.scope, p.leaf)
  }

  /** The places where the document has a record are `count` in number. */
  ghost predicate HasRecords(document: Document, shape: Shape, count: nat) {
    exists places :: ArePlaces(places, document, shape) && |places| == count
  }

  ghost predicate ArePlaces(places: set<Place>, document: Document, shape: Shape) {
    forall p :: p in places <==> IsRecord(document, shape, p)
  }

  lemma {:induction false} Row(resource: nat, scope: nat, n: nat) returns (row: set<Place>)
    ensures |row| == n
    ensures forall p: Place :: p in row <==> p.resource == resource && p.scope == scope && p.leaf < n
  {
    if n == 0 {
      row := {};
    } else {
      var rest := Row(resource, scope, n - 1);
      row := rest + {Place(resource, scope, n - 1)};
    }
  }

  lemma LeavesMeasured(scope: Json, shape: Shape, isZero: string -> bool)
    requires scope.Dict? && Length(Get(scope.fields, shape.leaves), isZero).Some?
    ensures forall k: nat :: IsLeaf(scope, shape, k) <==> k < Length(Get(scope.fields, shape.leaves), isZero).value
  {
  }

  lemma {:induction false} ScopesPlaced(scopes: seq<Json>, shape: Shape, isZero: string -> bool, resource: nat)
      returns (places: set<Place>)
    requires CountScopes(scopes, shape, isZero).Some?
    ensures |places| == CountScopes(scopes, shape, isZero).value
    ensures forall p: Place :: p in places <==>
              p.resource == resource && p.scope < |scopes| && IsLeaf(scopes[p.scope], shape, p.leaf)
  {
    if scopes == [] {
      places := {};
    } else {
      var rest, last := scopes[..|scopes| - 1], scopes[|scopes| - 1];
      var before := ScopesPlaced(rest, shape, isZero, resource);
      var n := Length(Get(last.fields, shape.leaves), isZero).value;
      LeavesMeasured(last, shape, isZero);
      hide IsLeaf, Length, Get;
      var row := Row(resource, |rest|, n);
      assert before !! row;
      assert |before + row| == |before| + |row|;
      places := before + row;
    }
  }

  lemma ResourcePlaced(resource: Json, shape: Shape, isZero: string -> bool, r: nat) returns (places: set<Place>)
    requires CountResource(resource, shape, isZero).Some?
    ensures |places| == CountResource(resource, shape, isZero).value
    ensures forall p: Place :: p in places <==> p.resource == r && IsScopeLeaf(resource, shape, p.scope, p.leaf)
  {
    hide CountScopes, IsLeaf;
    places := ScopesPlaced(Elements(Get(resource.fields, shape.scopes), isZero).value, shape, isZero, r);
  }

  lemma {:induction false} ResourcesPlaced(resources: seq<Json>, shape: Shape, isZero: string -> bool)
      returns (places: set<Place>)
    requires CountResources(resources, shape, isZero).Some?
    ensures |places| == CountResources(resources, shape, isZero).value
    ensures forall p: Place :: p in places <==>
              p.resource < |resources| && IsScopeLeaf(resources[p.resource], shape, p.scope, p.leaf)
  {
    if resources == [] {
      places := {};
    } else {
      var rest, last := resources[..|resources| - 1], resources[|resources| - 1];
      var before := ResourcesPlaced(rest, shape, isZero);
      hide CountResource, IsScopeLeaf;
      var row := ResourcePlaced(last, shape, isZero, |rest|);
      assert before !! row;
      assert |before + row| == |before| + |row|;
      places := before + row;
    }
  }

  /** The count is the number of places that hold a record. */
  lemma CountsTheRecords(document: Document, shape: Shape, isZero: string -> bool, count: nat)
    ensures CountRecords(document, shape, isZero) == Some(count)
            <==> WellShaped(document, shape, isZero) && HasRecords(document, shape, count)
  {
    hide CountResources, WellShaped, IsScopeLeaf;
    CountedExactlyWhen(document, shape, isZero);
    if CountRecords(document, shape, isZero).Some? {
      var resources := Elements(Get(document, shape.resources), isZero).value;
      var places := ResourcesPlaced(resources, shape, isZero);
      assert ArePlaces(places, document, shape);
      forall others | ArePlaces(others, document, shape) ensures others == places {
        assert forall p :: p in others <==> p in places;
      }
    }
  }
}
