/** The plain collection of Lesson6: a primary-key map of documents with error-returning
    operations. The collection of Lesson5 is the same code without logging and without
    NumDocuments, and with its fields exported; Lesson5's store.go uses the lower-case
    names, so the two spellings are taken as one field and this module models both.
    GetAll is declared in store.go. */
module Lesson6Collection {
  import opened Results
  import opened Documents
  import opened Sequences

  datatype Collection = Collection(config: Config, documents: map<string, Document>)

  /** What CreateCollection makes: an empty document map. */
  function Empty(cfg: Config): Collection {
    Collection(cfg, map[])
  }

  /** Put's validation of the primary-key field, shared by Lessons 5, 6 and 9. A value
      that is not a string and the empty string share one error. */
  function PrimaryKey(cfg: Config, doc: Document): (r: Result<string>)
    ensures cfg.primaryKey !in doc.fields <==> r == Err(MissingPrimaryKey(cfg.primaryKey))
    ensures (cfg.primaryKey in doc.fields && doc.fields[cfg.primaryKey].tag != StringType)
            <==> r == Err(InvalidKeyType)
    ensures (cfg.primaryKey in doc.fields && doc.fields[cfg.primaryKey].tag == StringType
             && StringField(doc, cfg.primaryKey).GetOr("") == "")
            <==> r == Err(EmptyKey)
    ensures r.Ok? <==> StringField(doc, cfg.primaryKey).Some? && StringField(doc, cfg.primaryKey).value != ""
    ensures r.Ok? ==> StringField(doc, cfg.primaryKey) == Some(r.value)
    ensures !r.Panic?
  {
    var name := cfg.primaryKey;
    if name !in doc.fields then Err(MissingPrimaryKey(name))
    else if doc.fields[name].tag != StringType then Err(InvalidKeyType)
    else if !doc.fields[name].value.DString? || doc.fields[name].value.s == "" then Err(EmptyKey)
    else Ok(doc.fields[name].value.s)
  }

  /** Put: validate the primary key, then store the document, replacing any previous one. */
  function Put(c: Collection, doc: Document): (r: Result<Collection>)
    ensures PrimaryKey(c.config, doc).Err? ==> r == Err(PrimaryKey(c.config, doc).error)
    ensures PrimaryKey(c.config, doc).Ok? ==> r.Ok?
    ensures r.Ok? ==>
              var key := PrimaryKey(c.config, doc).value;
              && r.value.config == c.config
              && key in r.value.documents && r.value.documents[key] == doc
              && (forall k :: k in r.value.documents <==> k in c.documents || k == key)
              && (forall k :: k in c.documents && k != key ==> r.value.documents[k] == c.documents[k])
  {
    match PrimaryKey(c.config, doc)
    case Ok(key) => Ok(c.(documents := c.documents[key := doc]))
    case Err(e) => Err(e)
    case Panic => Panic
  }

  function Get(c: Collection, key: string): (r: Result<Document>)
    ensures key in c.documents <==> r.Ok?
    ensures r.Ok? ==> r.value == c.documents[key]
    ensures !r.Ok? ==> r == Err(DocumentNotFound)
  {
    if key in c.documents then Ok(c.documents[key]) else Err(DocumentNotFound)
  }

  /** Delete: ErrDocumentNotFound for an absent key, otherwise remove that key alone. */
  function Delete(c: Collection, key: string): (r: Result<Collection>)
    ensures key !in c.documents <==> r == Err(DocumentNotFound)
    ensures key in c.documents ==> r.Ok?
    ensures r.Ok? ==>
              && r.value.config == c.config
              && (forall k :: k in r.value.documents <==> k in c.documents && k != key)
              && (forall k :: k in r.value.documents ==> r.value.documents[k] == c.documents[k])
  {
    if key !in c.documents then Err(DocumentNotFound)
    else Ok(c.(documents := c.documents - {key}))
  }

  /** List: one copy of every stored document, in the map's iteration order `order`. */
  function List(c: Collection, order: seq<string>): (r: seq<Document>)
    requires Enumerates(order, c.documents.Keys)
    ensures |r| == |c.documents|
    ensures forall k :: k in c.documents ==> c.documents[k] in r
    ensures forall d :: d in r ==> d in c.documents.Values
  {
    ValuesInOrder(c.documents, order)
  }

  function NumDocuments(c: Collection): (n: nat)
    ensures n == |c.documents|
  {
    |c.documents|
  }

  /** GetAll: ErrDocumentNotFound for an empty collection, otherwise every document. */
  function GetAll(c: Collection, order: seq<string>): (r: Result<seq<Document>>)
    requires Enumerates(order, c.documents.Keys)
    ensures r.Err? <==> |c.documents| == 0
    ensures r.Err? ==> r.error == DocumentNotFound
    ensures r.Ok? ==> |r.value| == NumDocuments(c) && (forall k :: k in c.documents ==> c.documents[k] in r.value)
    ensures !r.Panic?
  {
    if |c.documents| == 0 then Err(DocumentNotFound) else Ok(List(c, order))
  }

  lemma PutThenGet(c: Collection, doc: Document)
    requires Put(c, doc).Ok?
    ensures Get(Put(c, doc).value, PrimaryKey(c.config, doc).value) == Ok(doc)
  {
  }

  /** Deleting the key just put restores every other document, and Get then fails. */
  lemma PutThenDelete(c: Collection, doc: Document)
    requires Put(c, doc).Ok?
    ensures var key := PrimaryKey(c.config, doc).value;
            && Delete(Put(c, doc).value, key).Ok?
            && Delete(Put(c, doc).value, key).value.documents == c.documents - {key}
            && Get(Delete(Put(c, doc).value, key).value, key) == Err(DocumentNotFound)
  {
  }

  lemma DeleteTwiceFails(c: Collection, key: string)
    requires Delete(c, key).Ok?
    ensures Delete(Delete(c, key).value, key) == Err(DocumentNotFound)
  {
  }

  /** Put grows the count by one exactly when the key is new; Delete shrinks it by one. */
  lemma CountFollowsPutAndDelete(c: Collection, doc: Document, key: string)
    requires Put(c, doc).Ok?
    ensures NumDocuments(Put(c, doc).value)
            == NumDocuments(c) + (if PrimaryKey(c.config, doc).value in c.documents then 0 else 1)
    ensures Delete(c, key).Ok? ==> NumDocuments(Delete(c, key).value) == NumDocuments(c) - 1
  {
    var k := PrimaryKey(c.config, doc).value;
    var d' := Put(c, doc).value.documents;
    if k in c.documents {
      assert d'.Keys == c.documents.Keys;
    } else {
      assert d'.Keys == c.documents.Keys + {k};
    }
    if Delete(c, key).Ok? {
      assert Delete(c, key).value.documents.Keys == c.documents.Keys - {key};
    }
  }
}
