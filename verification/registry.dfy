/** The collection registry every store revision keeps: a map from collection name to
    collection, generic in the collection type of the revision. */
module Registry {
  import opened Results

  datatype Store<C> = Store(collections: map<string, C>)

  function NumCollections<C>(s: Store<C>): (n: nat)
    ensures n == |s.collections|
  {
    |s.collections|
  }

  /** NewStore: an empty registry. */
  function NewStore<C>(): (s: Store<C>)
    ensures NumCollections(s) == 0
  {
    Store(map[])
  }

  /** CreateCollection: ErrCollectionAlreadyExists for a taken name; otherwise register
      `created` under the name, leaving every other name as it was. */
  function Create<C(==)>(s: Store<C>, name: string, created: C): (r: Result<Store<C>>)
    ensures r.Err? <==> name in s.collections
    ensures r.Err? ==> r.error == CollectionAlreadyExists
    ensures !r.Panic?
    ensures r.Ok? ==>
              && name in r.value.collections && r.value.collections[name] == created
              && (forall n :: n != name ==> (n in r.value.collections <==> n in s.collections))
              && (forall n :: n in s.collections ==> r.value.collections[n] == s.collections[n])
              && NumCollections(r.value) == NumCollections(s) + 1
  {
    if name in s.collections then Err(CollectionAlreadyExists)
    else Ok(Store(s.collections[name := created]))
  }

  /** GetCollection: the registered collection, or ErrCollectionNotFound. */
  function Get<C>(s: Store<C>, name: string): (r: Result<C>)
    ensures r.Ok? <==> name in s.collections
    ensures r.Ok? ==> r.value == s.collections[name]
    ensures r.Err? ==> r.error == CollectionNotFound
    ensures !r.Panic?
  {
    if name in s.collections then Ok(s.collections[name]) else Err(CollectionNotFound)
  }

  /** DeleteCollection: ErrCollectionNotFound for an absent name; otherwise remove that
      name alone. */
  function Delete<C>(s: Store<C>, name: string): (r: Result<Store<C>>)
    ensures r.Err? <==> name !in s.collections
    ensures r.Err? ==> r.error == CollectionNotFound
    ensures !r.Panic?
    ensures r.Ok? ==>
              && (forall n :: n in r.value.collections <==> n in s.collections && n != name)
              && (forall n :: n in r.value.collections ==> r.value.collections[n] == s.collections[n])
              && NumCollections(r.value) == NumCollections(s) - 1
  {
    if name !in s.collections then Err(CollectionNotFound)
    else Ok(Store(s.collections - {name}))
  }

  /** A created collection can be fetched, and deleting it restores the registry. */
  lemma CreateGetDelete<C>(s: Store<C>, name: string, created: C)
    requires name !in s.collections
    ensures Get(Create(s, name, created).value, name) == Ok(created)
    ensures Delete(Create(s, name, created).value, name) == Ok(s)
  {
    assert Create(s, name, created).value.collections - {name} == s.collections;
  }

  /** After a successful delete the name is gone and a second delete fails. */
  lemma DeleteThenGetFails<C>(s: Store<C>, name: string)
    requires name in s.collections
    ensures Get(Delete(s, name).value, name).Err?
    ensures Delete(Delete(s, name).value, name).Err?
  {
  }
}
