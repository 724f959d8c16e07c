/** The store of Lesson5: like Lesson6, but CreateCollection also hands back the
    collection it registers. GetAll is Lesson6Collection.GetAll (the same code). The
    collection's fields are exported as Config and Documents while this store.go writes
    config and documents; the model reads both spellings as the same field. */
module Lesson5Store {
  import opened Results
  import opened Documents
  import Registry
  import Lesson6Collection

  type Store = Registry.Store<Lesson6Collection.Collection>

  /** CreateCollection: (nil, ErrCollectionAlreadyExists) for a taken name; otherwise the
      new empty collection, which is also the one registered under the name. */
  function CreateCollection(s: Store, name: string, cfg: Config): (r: Result<(Store, Lesson6Collection.Collection)>)
    ensures r.Err? <==> name in s.collections
    ensures name !in s.collections ==> r.Ok?
    ensures r.Err? ==> r.error == CollectionAlreadyExists
    ensures r.Ok? ==>
              var (s', c) := r.value;
              && name in s'.collections && s'.collections[name] == c
              && c.config == cfg && |c.documents| == 0
              && (forall n :: n != name ==> (n in s'.collections <==> n in s.collections))
              && (forall n :: n in s.collections ==> s'.collections[n] == s.collections[n])
  {
    match Registry.Create(s, name, Lesson6Collection.Empty(cfg))
    case Ok(s') => Ok((s', Lesson6Collection.Empty(cfg)))
    case Err(e) => Err(e)
    case Panic => Panic
  }
}
