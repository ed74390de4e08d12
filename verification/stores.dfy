/**
 The two JSON files the pipeline keeps: the processed-id file behind
 `load_processed`/`save_processed` and the record file behind
 `load_comic_info`/`save_comic_info`. A file is `None` while it does not
 exist. The processed file holds a JSON array written as `list(set)`, in
 an order Python leaves unspecified and that the program only ever reads
 back through `set(...)`, so the model keeps the set itself.
 */
module Stores {
  import opened Wrappers
  import opened JsonValue

  /** Contents of the processed-id file. */
  type SeenFile = Option<set<string>>

  /** Contents of the record file: the JSON array of saved records. */
  type RecordFile = Option<seq<Json>>

  /** `load_processed`: a missing file reads as the empty set. */
  function LoadProcessed(f: SeenFile): (s: set<string>)
    ensures f.None? ==> s == {}
    ensures f.Some? ==> s == f.value
  {
    match f
    case None => {}
    case Some(ids) => ids
  }

  /**
   `save_processed`: load, add one id, write the whole set back. Reading the
   file back gives the old set plus that id; nothing is lost.
   */
  function SaveProcessed(f: SeenFile, id: string): (f': SeenFile)
    ensures f'.Some?
    ensures f.None? ==> LoadProcessed(f') == {id}
    ensures LoadProcessed(f') == LoadProcessed(f) + {id}
    ensures LoadProcessed(f) <= LoadProcessed(f') && id in LoadProcessed(f')
    ensures id in LoadProcessed(f) ==> LoadProcessed(f') == LoadProcessed(f)
  {
    Some(LoadProcessed(f) + {id})
  }

  /** Saving the same id twice leaves the file as saving it once. */
  lemma SaveProcessedIdempotent(f: SeenFile, id: string)
    ensures SaveProcessed(SaveProcessed(f, id), id) == SaveProcessed(f, id)
  {
  }

  /** `load_comic_info`: a missing file reads as the empty list. */
  function LoadComicInfo(f: RecordFile): (rs: seq<Json>)
    ensures f.None? ==> rs == []
    ensures f.Some? ==> rs == f.value
  {
    match f
    case None => []
    case Some(records) => records
  }

  /**
   `save_comic_info`: read the list, append, rewrite the whole file. The list
   read back is one longer, keeps every earlier record in place and ends
   with the new one.
   */
  function SaveComicInfo(f: RecordFile, record: Json): (f': RecordFile)
    ensures f'.Some?
    ensures f.None? ==> LoadComicInfo(f') == [record]
    ensures |LoadComicInfo(f')| == |LoadComicInfo(f)| + 1
    ensures LoadComicInfo(f) <= LoadComicInfo(f')
    ensures LoadComicInfo(f')[|LoadComicInfo(f)|] == record
  {
    Some(LoadComicInfo(f) + [record])
  }
}
