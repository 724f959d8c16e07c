/** The collection of Lesson4: the same primary-key map, but Put rejects a bad document
    silently and the other operations report with a bool. */
module Lesson4Collection {
  import opened Results
  import opened Documents
  import opened Sequences

  datatype Collection = Collection(config: Config, documents: map<string, Document>)

  function Empty(cfg: Config): Collection {
    Collection(cfg, map[])
  }

  /** The key Put stores under: the primary-key field's value when the field is tagged
      String, holds a Go string, and that string is not empty. */
  function ValidKey(cfg: Config, doc: Document): (r: Option<string>)
    ensures r.Some? <==> StringField(doc, cfg.primaryKey).Some? && StringField(doc, cfg.primaryKey).value != ""
    ensures r.Some? ==> StringField(doc, cfg.primaryKey) == r
  {
    match StringField(doc, cfg.primaryKey)
    case Some(k) => if k == "" then None else Some(k)
    case None => None
  }

  /** Put: a document without a valid key is dropped with a message on stdout and the map
      is unchanged; otherwise it is stored, replacing any previous one. */
  function Put(c: Collection, doc: Document): (r: Collection)
    ensures r.config == c.config
    ensures ValidKey(c.config, doc).None? ==> r == c
    ensures ValidKey(c.config, doc).Some? ==>
              var key := ValidKey(c.config, doc).value;
              && key in r.documents && r.documents[key] == doc
              && (forall k :: k in r.documents <==> k in c.documents || k == key)
              && (forall k :: k in c.documents && k != key ==> r.documents[k] == c.documents[k])
  {
    match ValidKey(c.config, doc)
    case Some(key) => c.(documents := c.documents[key := doc])
    case None => c
  }

  /** Get: the stored document and true, or nothing and false. */
  function Get(c: Collection, key: string): (r: Option<Document>)
    ensures r.Some? <==> key in c.documents
    ensures r.Some? ==> r.value == c.documents[key]
  {
    if key in c.documents then Some(c.documents[key]) else None
  }

  /** Delete: true and the key removed when it was present; false and no change otherwise. */
  function Delete(c: Collection, key: string): (r: (bool, Collection))
    ensures r.0 <==> key in c.documents
    ensures !r.0 ==> r.1 == c
    ensures r.1.config == c.config
    ensures forall k :: k in r.1.documents <==> k in c.documents && k != key
    ensures forall k :: k in r.1.documents ==> r.1.documents[k] == c.documents[k]
  {
    if key !in c.documents then (false, c)
    else (true, c.(documents := c.documents - {key}))
  }

  function List(c: Collection, order: seq<string>): (r: seq<Document>)
    requires Enumerates(order, c.documents.Keys)
    ensures |r| == |c.documents|
    ensures forall k :: k in c.documents ==> c.documents[k] in r
    ensures forall d :: d in r ==> d in c.documents.Values
  {
    ValuesInOrder(c.documents, order)
  }

  /** A stored document can be read back; deleting it twice succeeds only once. */
  lemma PutGetDelete(c: Collection, doc: Document)
    requires ValidKey(c.config, doc).Some?
    ensures var key := ValidKey(c.config, doc).value;
            var c1 := Put(c, doc);
            && Get(c1, key) == Some(doc)
            && Delete(c1, key).0
            && !Delete(Delete(c1, key).1, key).0
            && Get(Delete(c1, key).1, key).None?
  {
  }
}
