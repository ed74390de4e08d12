/**
 The part of `generate_atom_feed` that depends on the saved records: for
 each record, in store order, the values handed to one `add_entry` call.
 The lookups `comic["title"]["chinese"]` and `comic["description"]["chinese"]`
 raise when the model's answer lacked them, and then no document is written.
 */
module Publisher {
  import opened Wrappers
  import opened JsonValue

  /** The record values one feed entry is built from (link and content derive from the same record). */
  datatype AtomEntry = AtomEntry(id: Json, title: Json, summary: Json, published: Json)

  /** `x[k1][k2]` with both lookups succeeding. */
  predicate HasPath(j: Json, k1: string, k2: string)
  {
    j.JObj? && k1 in Keys(j.fields) &&
    var inner := Lookup(j.fields, k1);
    inner.Some? && inner.value.JObj? && k2 in Keys(inner.value.fields)
  }

  /** A record the feed generator can turn into an entry without raising. */
  predicate Publishable(record: Json)
  {
    && record.JObj?
    && "id" in Keys(record.fields)
    && HasPath(record, "title", "chinese")
    && HasPath(record, "description", "chinese")
    && "published" in Keys(record.fields)
  }

  /** `a[k1][k2]`, `None` where Python raises. */
  function Path(j: Json, k1: string, k2: string): (r: Option<Json>)
  {
    match Member(j, k1)
    case None => None
    case Some(inner) => Member(inner, k2)
  }

  /** The key-membership reading of `Publishable` agrees with the lookups that Python performs. */
  lemma PublishableIff(record: Json)
    ensures Publishable(record) <==>
              Member(record, "id").Some? && Path(record, "title", "chinese").Some? &&
              Path(record, "description", "chinese").Some? && Member(record, "published").Some?
  {
    if record.JObj? {
      LookupFindsKeys(record.fields, "id");
      LookupFindsKeys(record.fields, "title");
      LookupFindsKeys(record.fields, "description");
      LookupFindsKeys(record.fields, "published");
      var t := Lookup(record.fields, "title");
      var d := Lookup(record.fields, "description");
      if t.Some? && t.value.JObj? { LookupFindsKeys(t.value.fields, "chinese"); }
      if d.Some? && d.value.JObj? { LookupFindsKeys(d.value.fields, "chinese"); }
    }
  }

  /** The entry for one record; it exists exactly when the record is publishable. */
  function EntryOf(record: Json): (r: Option<AtomEntry>)
    ensures r.Some? <==> Publishable(record)
    ensures r.Some? ==> Some(r.value.id) == Member(record, "id") && Some(r.value.published) == Member(record, "published")
    ensures r.Some? ==> Some(r.value.title) == Path(record, "title", "chinese")
    ensures r.Some? ==> Some(r.value.summary) == Path(record, "description", "chinese")
  {
    PublishableIff(record);
    match (Member(record, "id"), Path(record, "title", "chinese"),
           Path(record, "description", "chinese"), Member(record, "published"))
    case (Some(id), Some(title), Some(summary), Some(published)) =>
      Some(AtomEntry(id, title, summary, published))
    case _ => None
  }

  /**
   The loop over the saved records: one entry per record, in store order,
   or `None` as soon as one record is not publishable.
   */
  function BuildEntries(records: seq<Json>): Option<seq<AtomEntry>>
  {
    if |records| == 0 then Some([])
    else
      match EntryOf(records[0])
      case None => None
      case Some(e) =>
        match BuildEntries(records[1..])
        case None => None
        case Some(es) => Some([e] + es)
  }

  /**
   The feed is built exactly when every record yields an entry, and then it
   holds one entry per record, in store order.
   */
  lemma {:induction false} BuildEntriesSpec(records: seq<Json>)
    ensures BuildEntries(records).Some? <==> forall i :: 0 <= i < |records| ==> EntryOf(records[i]).Some?
    ensures BuildEntries(records).Some? ==> |BuildEntries(records).value| == |records|
    ensures BuildEntries(records).Some? ==>
              forall i :: 0 <= i < |records| ==> EntryOf(records[i]) == Some(BuildEntries(records).value[i])
  {
    if |records| > 0 {
      BuildEntriesSpec(records[1..]);
      match EntryOf(records[0])
      case None =>
      case Some(e) =>
        match BuildEntries(records[1..])
        case None => BlockedCons(records);
        case Some(es) => EntriesCons(EntryOf, records, e, es);
    }
  }

  /** A record that cannot be published in the tail cannot be published in the whole. */
  lemma BlockedCons(records: seq<Json>)
    requires |records| > 0
    requires !forall i :: 0 <= i < |records[1..]| ==> EntryOf(records[1..][i]).Some?
    ensures !forall i :: 0 <= i < |records| ==> EntryOf(records[i]).Some?
  {
    var k :| 0 <= k < |records[1..]| && EntryOf(records[1..][k]).None?;
    assert records[1..][k] == records[k + 1];
  }

  /** The head's entry in front of the tail's entries lines up with the whole list. */
  lemma EntriesCons(entryOf: Json -> Option<AtomEntry>, records: seq<Json>, e: AtomEntry, es: seq<AtomEntry>)
    requires |records| > 0 && entryOf(records[0]) == Some(e)
    requires |es| == |records| - 1
    requires forall i :: 0 <= i < |es| ==> entryOf(records[1..][i]) == Some(es[i])
    ensures forall i :: 0 <= i < |records| ==> entryOf(records[i]) == Some(([e] + es)[i])
  {
    forall i | 0 < i < |records|
      ensures entryOf(records[i]) == Some(([e] + es)[i])
    {
      assert records[i] == records[1..][i - 1] && ([e] + es)[i] == es[i - 1];
    }
  }
}
