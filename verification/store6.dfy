/** The store of Lesson6: a registry of plain collections. NewStore, GetCollection and
    DeleteCollection are the registry's own; Collection.GetAll, also declared in this
    file, is Lesson6Collection.GetAll. */
module Lesson6Store {
  import opened Results
  import opened Documents
  import Registry
  import Lesson6Collection

  type Store = Registry.Store<Lesson6Collection.Collection>

  /** CreateCollection: register an empty collection with the given config. */
  function CreateCollection(s: Store, name: string, cfg: Config): (r: Result<Store>)
    ensures r.Err? <==> name in s.collections
    ensures name !in s.collections ==> r.Ok?
    ensures r.Err? ==> r.error == CollectionAlreadyExists
    ensures r.Ok? ==>
              && name in r.value.collections
              && r.value.collections[name].config == cfg
              && |r.value.collections[name].documents| == 0
              && (forall n :: n != name ==> (n in r.value.collections <==> n in s.collections))
              && (forall n :: n in s.collections ==> r.value.collections[n] == s.collections[n])
              && Registry.NumCollections(r.value) == Registry.NumCollections(s) + 1
  {
    Registry.Create(s, name, Lesson6Collection.Empty(cfg))
  }

  /** GetAll on a collection fresh from the store reports ErrDocumentNotFound. */
  lemma CreatedCollectionGetAllFails(s: Store, name: string, cfg: Config)
    requires name !in s.collections
    ensures Lesson6Collection.GetAll(Registry.Get(CreateCollection(s, name, cfg).value, name).value, [])
            == Err(DocumentNotFound)
  {
  }
}
