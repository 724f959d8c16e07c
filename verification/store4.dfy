/** The store of Lesson4: the registry with bool results instead of errors. */
module Lesson4Store {
  import opened Results
  import opened Documents
  import Registry
  import Lesson4Collection

  type Store = Registry.Store<Lesson4Collection.Collection>

  /** CreateCollection: (false, nil) and no change for a taken name; otherwise (true, c)
      where c is the new empty collection, registered under the name. */
  function CreateCollection(s: Store, name: string, cfg: Config): (r: (bool, Option<Lesson4Collection.Collection>, Store))
    ensures r.0 <==> name !in s.collections
    ensures !r.0 ==> r.1.None? && r.2 == s
    ensures r.0 ==>
              && r.1 == Some(Lesson4Collection.Empty(cfg))
              && name in r.2.collections && r.2.collections[name] == r.1.value
              && (forall n :: n != name ==> (n in r.2.collections <==> n in s.collections))
              && (forall n :: n in s.collections ==> r.2.collections[n] == s.collections[n])
  {
    match Registry.Create(s, name, Lesson4Collection.Empty(cfg))
    case Ok(s') => (true, Some(Lesson4Collection.Empty(cfg)), s')
    case _ => (false, None, s)
  }

  /** GetCollection: (c, true) exactly when the name is registered. */
  function GetCollection(s: Store, name: string): (r: Option<Lesson4Collection.Collection>)
    ensures r.Some? <==> name in s.collections
    ensures r.Some? ==> r.value == s.collections[name]
  {
    match Registry.Get(s, name)
    case Ok(c) => Some(c)
    case _ => None
  }

  /** DeleteCollection: false and no change for an absent name; otherwise true, with that
      name alone removed. */
  function DeleteCollection(s: Store, name: string): (r: (bool, Store))
    ensures r.0 <==> name in s.collections
    ensures !r.0 ==> r.1 == s
    ensures forall n :: n in r.1.collections <==> n in s.collections && n != name
    ensures forall n :: n in r.1.collections ==> r.1.collections[n] == s.collections[n]
  {
    match Registry.Delete(s, name)
    case Ok(s') => (true, s')
    case _ => (false, s)
  }
}
