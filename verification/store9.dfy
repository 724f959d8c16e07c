/** The store of Lesson9: a registry of indexed collections. NewStore, GetCollection,
    DeleteCollection and NumCollections are the registry's own. */
module Lesson9Store {
  import opened Results
  import opened Documents
  import Registry
  import Lesson9Collection

  type Store = Registry.Store<Lesson9Collection.Collection>

  /** CreateCollection: register an empty collection with the given config, whose
      document map is made (not nil) and which has no index. */
  function CreateCollection(s: Store, name: string, cfg: Config): (r: Result<Store>)
    ensures r.Err? <==> name in s.collections
    ensures name !in s.collections ==> r.Ok?
    ensures r.Err? ==> r.error == CollectionAlreadyExists
    ensures r.Ok? ==> name in r.value.collections
    ensures r.Ok? ==>
              var c := r.value.collections[name];
              && c.config == cfg && c.documents == Some(map[]) && c.indexes == map[]
              && (forall n :: n != name ==> (n in r.value.collections <==> n in s.collections))
              && (forall n :: n in s.collections ==> r.value.collections[n] == s.collections[n])
              && Registry.NumCollections(r.value) == Registry.NumCollections(s) + 1
  {
    Registry.Create(s, name, Lesson9Collection.Empty(cfg))
  }

  /** A collection fresh from the store has no documents, and GetAll on it succeeds with
      none (its map is not nil). */
  lemma CreatedCollectionIsEmpty(s: Store, name: string, cfg: Config)
    requires name !in s.collections
    ensures var c := Registry.Get(CreateCollection(s, name, cfg).value, name).value;
            && Lesson9Collection.NumDocuments(c) == 0
            && Lesson9Collection.GetAll(c, []) == Ok([])
  {
  }
}
