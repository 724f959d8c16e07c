/** The first store (Lesson3): one package-level map from key to document, passed here
    as explicit state. The key is always read from the field named "key". */
module Lesson3DocumentStore {
  import opened Results
  import opened Documents
  import opened Sequences

  type DocumentMap = map<string, Document>

  /** Put: store the document under the string in its "key" field when that field is
      tagged String and holds a Go string (the empty string included); otherwise print a
      message and store nothing. */
  function Put(docs: DocumentMap, doc: Document): (r: DocumentMap)
    ensures StringField(doc, "key").None? ==> r == docs
    ensures StringField(doc, "key").Some? ==>
              var key := StringField(doc, "key").value;
              && key in r && r[key] == doc
              && (forall k :: k in r <==> k in docs || k == key)
              && (forall k :: k in docs && k != key ==> r[k] == docs[k])
  {
    match StringField(doc, "key")
    case Some(key) => docs[key := doc]
    case None => docs
  }

  function Get(docs: DocumentMap, key: string): (r: Option<Document>)
    ensures r.Some? <==> key in docs
    ensures r.Some? ==> r.value == docs[key]
  {
    if key in docs then Some(docs[key]) else None
  }

  function Delete(docs: DocumentMap, key: string): (r: (bool, DocumentMap))
    ensures r.0 <==> key in docs
    ensures !r.0 ==> r.1 == docs
    ensures forall k :: k in r.1 <==> k in docs && k != key
    ensures forall k :: k in r.1 ==> r.1[k] == docs[k]
  {
    if key !in docs then (false, docs) else (true, docs - {key})
  }

  function List(docs: DocumentMap, order: seq<string>): (r: seq<Document>)
    requires Enumerates(order, docs.Keys)
    ensures |r| == |docs|
    ensures forall k :: k in docs ==> docs[k] in r
    ensures forall d :: d in r ==> d in docs.Values
  {
    ValuesInOrder(docs, order)
  }

  /** A document whose "key" field holds the empty string is stored like any other. */
  lemma EmptyKeyIsStored(docs: DocumentMap)
    ensures var doc := Document(map["key" := Field(StringType, DString(""))]);
            Get(Put(docs, doc), "") == Some(doc)
  {
    var doc := Document(map["key" := Field(StringType, DString(""))]);
    assert StringField(doc, "key") == Some("");
  }

  /** The second Delete of the same key reports false. */
  lemma DeleteTwice(docs: DocumentMap, key: string)
    requires key in docs
    ensures Delete(docs, key).0
    ensures !Delete(Delete(docs, key).1, key).0
  {
  }
}
