/**
 * The MongoDB collection `face_features` shared by the upload route and the
 * batch script, modelled as an in-memory sequence of documents kept in
 * insertion order. The model assumes `collection.find()` returns them in that
 * order; MongoDB does not guarantee any order for an unsorted `find()`.
 */
module FaceCollection {

  /** A face encoding: the list of reals `face_recognition` produces. */
  type Vector = seq<real>

  /** One stored document: `{"filename": ..., "features": ...}`. */
  datatype Record = Record(filename: string, features: Vector)

  class FaceStore {
    /** The documents of the collection, oldest first (also the assumed scan order). */
    var records: seq<Record>

    constructor ()
      ensures records == []
    {
      records := [];
    }

    /** `collection.insert_one`: the document is appended whole, nothing else changes. */
    method InsertOne(r: Record)
      modifies this
      ensures records == old(records) + [r]
    {
      records := records + [r];
    }
  }
}
