/**
 `update_comic` and `update_route`: the run over the unseen comics with the
 files replaced by a store value, the model call by an oracle and
 `json.loads` by an abstract decoder.
 */
module Pipeline {
  import opened Wrappers
  import opened JsonValue
  import opened Stores
  import FeedReader
  import Enrichment
  import Fence
  import Publisher

  /** Everything a run reads and writes: the two JSON files and the last feed document written. */
  datatype Store = Store(seen: SeenFile, records: RecordFile, feed: Option<seq<Publisher.AtomEntry>>)

  /** How `update_comic` ended. */
  datatype Status =
    | Completed                           // every comic saved and the feed regenerated
    | Aborted(failure: Enrichment.EnrichError) // one comic's enrichment raised; the loop stopped there
    | PublishFailed                       // every comic saved, but a record could not be put in the feed

  /** The store after the run, the records it appended (in order) and how it ended. */
  datatype RunResult = RunResult(store: Store, added: seq<Json>, status: Status)

  /** The ids carried by some records. */
  function RecordIds(rs: seq<Json>): set<string>
  {
    set i | 0 <= i < |rs| && Enrichment.IdOf(rs[i]).Some? :: Enrichment.IdOf(rs[i]).value
  }

  /**
   One comic through the model, the fence search, the decoder and the field
   injection. The reply consulted is the one to the request built from the
   prompt and the comic; each step that can raise aborts with its own
   failure, and a produced record stamps the comic's id, publication time and
   image address over whatever the model returned, passing every other key.
   */
  function EnrichComic(prompt: string, ai: Enrichment.Oracle, decode: Enrichment.Decoder,
                       c: FeedReader.Comic): (r: Result<Json, Enrichment.EnrichError>)
    ensures var reply := ai(Enrichment.BuildRequest(prompt, c));
            r.Success? <==>
              reply.Answer? && Fence.FencedBody(reply.text).Some? &&
              decode(Fence.FencedBody(reply.text).value).Some? &&
              decode(Fence.FencedBody(reply.text).value).value.JObj?
    ensures ai(Enrichment.BuildRequest(prompt, c)).TransportError? ==> r == Failure(Enrichment.Transport)
    ensures var reply := ai(Enrichment.BuildRequest(prompt, c));
            reply.Answer? && Fence.FencedBody(reply.text).None? ==> r == Failure(Enrichment.NoFencedBlock)
    ensures var reply := ai(Enrichment.BuildRequest(prompt, c));
            reply.Answer? && Fence.FencedBody(reply.text).Some? ==>
              var d := decode(Fence.FencedBody(reply.text).value);
              (d.None? ==> r == Failure(Enrichment.Undecodable)) &&
              (d.Some? && !d.value.JObj? ==> r == Failure(Enrichment.NotAnObject))
    ensures r.Success? ==>
              var decoded := decode(Fence.FencedBody(ai(Enrichment.BuildRequest(prompt, c)).text).value).value;
              && r.value.JObj?
              && JsonValue.Lookup(r.value.fields, "id") == Some(JStr(c.id))
              && JsonValue.Lookup(r.value.fields, "published") == Some(JStr(c.published))
              && JsonValue.Lookup(r.value.fields, "image_url") == Some(JStr(c.imgUrl))
              && forall k :: k !in Enrichment.InjectedKeys ==>
                   JsonValue.Lookup(r.value.fields, k) == JsonValue.Lookup(decoded.fields, k)
  {
    Enrichment.Enrich(ai(Enrichment.BuildRequest(prompt, c)), decode, c)
  }

  /** The enrichment of one comic, as the loop sees it. */
  type Enricher = FeedReader.Comic -> Result<Json, Enrichment.EnrichError>

  /** The enrichment `update_comic` performs with a given prompt, endpoint and decoder. */
  function EnrichWith(prompt: string, ai: Enrichment.Oracle, decode: Enrichment.Decoder): Enricher
  {
    c => EnrichComic(prompt, ai, decode, c)
  }

  /** `save_comic_info(record)`: the record is appended; the processed set and the feed stay. */
  function SaveRecord(st: Store, record: Json): (st': Store)
    ensures LoadComicInfo(st'.records) == LoadComicInfo(st.records) + [record]
    ensures st'.seen == st.seen && st'.feed == st.feed
  {
    st.(records := SaveComicInfo(st.records, record))
  }

  /** `save_processed(id)`: the id is added; the records and the feed stay. */
  function MarkSeen(st: Store, id: string): (st': Store)
    ensures LoadProcessed(st'.seen) == LoadProcessed(st.seen) + {id}
    ensures st'.records == st.records && st'.feed == st.feed
  {
    st.(seen := SaveProcessed(st.seen, id))
  }

  /**
   The stores after each of the two writes of one comic, in program order:
   `save_comic_info(record)` first, then `save_processed(comic["id"])`.
   */
  function PersistSteps(st: Store, id: string, record: Json): (Store, Store)
  {
    var afterRecord := SaveRecord(st, record);
    (afterRecord, MarkSeen(afterRecord, id))
  }

  /** Both writes of one comic: the record is appended and its id marked; the feed is untouched. */
  function Persist(st: Store, id: string, record: Json): (st': Store)
    ensures LoadComicInfo(st'.records) == LoadComicInfo(st.records) + [record]
    ensures LoadProcessed(st'.seen) == LoadProcessed(st.seen) + {id}
    ensures st'.feed == st.feed
  {
    PersistSteps(st, id, record).1
  }

  /**
   `generate_atom_feed`: the document is replaced only when every saved
   record yields an entry; otherwise it raises and the old document stays.
   */
  function GenerateFeed(st: Store): (r: RunResult)
    ensures r.added == [] && r.store.seen == st.seen && r.store.records == st.records
    ensures r.status.Completed? || r.status.PublishFailed?
    ensures r.status.Completed? <==> Publisher.BuildEntries(LoadComicInfo(st.records)).Some?
    ensures r.status.Completed? ==> r.store.feed == Publisher.BuildEntries(LoadComicInfo(st.records))
    ensures r.status.PublishFailed? ==> r.store.feed == st.feed
  {
    match Publisher.BuildEntries(LoadComicInfo(st.records))
    case None => RunResult(st, [], PublishFailed)
    case Some(entries) => RunResult(st.(feed := Some(entries)), [], Completed)
  }

  /**
   How the feed document relates to the run's end: aborted or failed runs
   leave the previous document; a completed run replaced it with the
   entries of every saved record.
   */
  predicate FeedOutcome(status: Status, before: Option<seq<Publisher.AtomEntry>>, after: Store)
  {
    match status
    case Aborted(_) => after.feed == before
    case PublishFailed => after.feed == before && Publisher.BuildEntries(LoadComicInfo(after.records)).None?
    case Completed => after.feed.Some? && after.feed == Publisher.BuildEntries(LoadComicInfo(after.records))
  }

  /**
   What a run of `update_comic` over `comics` from store `st` leaves behind
   in `r`:
   - the records appended are the enrichments of a prefix of the comics, in
     order, and the record file reads back as the old list plus them;
   - the processed ids read back as the old set plus exactly that prefix's ids;
   - the run stopped early exactly when it aborted, and then the next comic's
     enrichment is the failure it reports;
   - the feed document is as `FeedOutcome` says.
   */
  ghost predicate RunSpec(st: Store, enrich: Enricher, comics: seq<FeedReader.Comic>, r: RunResult)
  {
    && EnrichedPrefix(enrich, comics, r.added)
    && LoadComicInfo(r.store.records) == LoadComicInfo(st.records) + r.added
    && LoadProcessed(r.store.seen) == LoadProcessed(st.seen) + FeedReader.ComicIds(comics[..|r.added|])
    && (r.status.Aborted? <==> |r.added| < |comics|)
    && (r.status.Aborted? ==> enrich(comics[|r.added|]) == Failure(r.status.failure))
  }

  /** `added` holds the enrichments of the first `|added|` comics, in order. */
  ghost predicate EnrichedPrefix(enrich: Enricher, comics: seq<FeedReader.Comic>, added: seq<Json>)
  {
    |added| <= |comics| && forall i :: 0 <= i < |added| ==> enrich(comics[i]) == Success(added[i])
  }

  /**
   `update_comic`. The comics are enriched in order; each success appends its
   record and then marks its id seen. The first failure stops the loop with
   the earlier comics saved and the later ones untouched, and the feed is
   not regenerated. Only when every comic succeeded is the feed regenerated.
   */
  function UpdateComic(st: Store, enrich: Enricher, comics: seq<FeedReader.Comic>): (r: RunResult)
    ensures RunSpec(st, enrich, comics, r)
    ensures FeedOutcome(r.status, st.feed, r.store)
    decreases |comics|
  {
    if |comics| == 0 then
      var r := GenerateFeed(st);
      assert comics[..0] == [];
      r
    else
      match enrich(comics[0])
      case Failure(e) =>
        assert comics[..0] == [];
        RunResult(st, [], Aborted(e))
      case Success(record) =>
        var st1 := Persist(st, comics[0].id, record);
        var rest := UpdateComic(st1, enrich, comics[1..]);
        RunSpecCons(st, st1, enrich, comics, record, rest);
        RunResult(rest.store, [record] + rest.added, rest.status)
  }

  /**
   A successful first comic, persisted into `st1`, followed by a run over the
   rest from `st1` is a run over all of them from `st`.
   */
  lemma RunSpecCons(st: Store, st1: Store, enrich: Enricher, comics: seq<FeedReader.Comic>,
                    record: Json, rest: RunResult)
    requires |comics| > 0 && enrich(comics[0]) == Success(record)
    requires LoadComicInfo(st1.records) == LoadComicInfo(st.records) + [record]
    requires LoadProcessed(st1.seen) == LoadProcessed(st.seen) + {comics[0].id}
    requires st1.feed == st.feed
    requires RunSpec(st1, enrich, comics[1..], rest)
    ensures RunSpec(st, enrich, comics, RunResult(rest.store, [record] + rest.added, rest.status))
  {
    var n := |rest.added|;
    var added := [record] + rest.added;
    assert EnrichedPrefix(enrich, comics, added) by {
      EnrichedCons(enrich, comics, record, rest.added);
    }
    assert LoadComicInfo(rest.store.records) == LoadComicInfo(st.records) + added by {
      assert (LoadComicInfo(st.records) + [record]) + rest.added == LoadComicInfo(st.records) + added;
    }
    assert LoadProcessed(rest.store.seen) == LoadProcessed(st.seen) + FeedReader.ComicIds(comics[..|added|]) by {
      PrefixIdsCons(comics, n);
    }
    assert rest.status.Aborted? ==> enrich(comics[|added|]) == Failure(rest.status.failure) by {
      if rest.status.Aborted? {
        assert comics[n + 1] == comics[1..][n];
      }
    }
  }

  /** The ids of the first `n + 1` comics are the first id plus the ids of the next `n`. */
  lemma PrefixIdsCons(comics: seq<FeedReader.Comic>, n: nat)
    requires n < |comics|
    ensures FeedReader.ComicIds(comics[..n + 1]) == {comics[0].id} + FeedReader.ComicIds(comics[1..][..n])
  {
    assert comics[..n + 1] == [comics[0]] + comics[1..][..n];
    IdsCons(comics[0], comics[1..][..n]);
  }

  /** Enrichment results for the first comic and for a prefix of the rest line up with the whole prefix. */
  lemma EnrichedCons(enrich: Enricher, comics: seq<FeedReader.Comic>, record: Json, restAdded: seq<Json>)
    requires |comics| > 0 && enrich(comics[0]) == Success(record)
    requires EnrichedPrefix(enrich, comics[1..], restAdded)
    ensures EnrichedPrefix(enrich, comics, [record] + restAdded)
  {
    forall i | 0 <= i < |restAdded| + 1
      ensures enrich(comics[i]) == Success(([record] + restAdded)[i])
    {
      if i > 0 {
        assert ([record] + restAdded)[i] == restAdded[i - 1] && comics[i] == comics[1..][i - 1];
      }
    }
  }

  lemma IdsCons(c: FeedReader.Comic, cs: seq<FeedReader.Comic>)
    ensures FeedReader.ComicIds([c] + cs) == {c.id} + FeedReader.ComicIds(cs)
  {
    var xs := [c] + cs;
    forall id | id in FeedReader.ComicIds(xs) ensures id in {c.id} + FeedReader.ComicIds(cs) {
      var i :| 0 <= i < |xs| && xs[i].id == id;
      if i > 0 { assert xs[i] == cs[i - 1]; }
    }
    forall id | id in FeedReader.ComicIds(cs) ensures id in FeedReader.ComicIds(xs) {
      var i :| 0 <= i < |cs| && cs[i].id == id;
      assert xs[i + 1] == cs[i];
    }
    assert xs[0] == c;
  }

  /** The answer `update_route` gives. */
  datatype Outcome =
    | NothingNew                         // "no new comics", 200
    | Updated                            // "update succeeded", 200
    | UpdateFailed(status: Status)       // the exception caught around `update_comic`, 500
    | Unhandled(error: FeedReader.ReadError) // the feed reader raised outside the `try`

  /** The HTTP status of an outcome; an exception escaping the view is Flask's internal server error. */
  function Code(o: Outcome): int
  {
    match o
    case NothingNew => 200
    case Updated => 200
    case UpdateFailed(_) => 500
    case Unhandled(_) => 500
  }

  datatype RouteResult = RouteResult(store: Store, outcome: Outcome)

  /**
   `update_route`: read the unseen comics; none means a no-op success
   without calling `update_comic`; otherwise run it and answer 200 when it
   completed and 500 when it raised.
   */
  function UpdateRoute(st: Store, entries: seq<FeedReader.Entry>, prompt: string,
                       ai: Enrichment.Oracle, decode: Enrichment.Decoder): (r: RouteResult)
    ensures r.outcome.Unhandled? <==> FeedReader.ParseFeed(LoadProcessed(st.seen), entries).Failure?
    ensures r.outcome.Unhandled? ==> r.outcome.error == FeedReader.ParseFeed(LoadProcessed(st.seen), entries).error
    ensures r.outcome.Unhandled? || r.outcome.NothingNew? ==> r.store == st
    ensures r.outcome.NothingNew? <==> FeedReader.ParseFeed(LoadProcessed(st.seen), entries) == Success([])
    ensures r.outcome.UpdateFailed? ==> !r.outcome.status.Completed?
    ensures Code(r.outcome) == 200 <==> r.outcome.NothingNew? || r.outcome.Updated?
    ensures r.outcome.Updated? || r.outcome.UpdateFailed? ==>
              var comics := FeedReader.ParseFeed(LoadProcessed(st.seen), entries).value;
              var run := UpdateComic(st, EnrichWith(prompt, ai, decode), comics);
              && |comics| > 0
              && r.store == run.store
              && (r.outcome.Updated? <==> run.status.Completed?)
              && (r.outcome.UpdateFailed? ==> r.outcome.status == run.status)
  {
    match FeedReader.ParseFeed(LoadProcessed(st.seen), entries)
    case Failure(err) => RouteResult(st, Unhandled(err))
    case Success(comics) =>
      if |comics| == 0 then RouteResult(st, NothingNew)
      else
        var run := UpdateComic(st, EnrichWith(prompt, ai, decode), comics);
        if run.status.Completed? then RouteResult(run.store, Updated)
        else RouteResult(run.store, UpdateFailed(run.status))
  }

  /** Every record an enricher produces carries the id of the comic it was made from. */
  ghost predicate StampsIds(enrich: Enricher)
  {
    forall c :: enrich(c).Success? ==> Enrichment.IdOf(enrich(c).value) == Some(c.id)
  }

  /** The real enrichment overwrites `id` with the comic's id. */
  lemma EnrichWithStampsIds(prompt: string, ai: Enrichment.Oracle, decode: Enrichment.Decoder)
    ensures StampsIds(EnrichWith(prompt, ai, decode))
  {
  }

  lemma RecordIdsAppend(a: seq<Json>, b: seq<Json>)
    ensures RecordIds(a + b) == RecordIds(a) + RecordIds(b)
  {
    var ab := a + b;
    forall id | id in RecordIds(ab) ensures id in RecordIds(a) + RecordIds(b) {
      var i :| 0 <= i < |ab| && Enrichment.IdOf(ab[i]).Some? && Enrichment.IdOf(ab[i]).value == id;
      if i >= |a| { assert ab[i] == b[i - |a|]; }
    }
    forall id | id in RecordIds(b) ensures id in RecordIds(ab) {
      var i :| 0 <= i < |b| && Enrichment.IdOf(b[i]).Some? && Enrichment.IdOf(b[i]).value == id;
      assert ab[|a| + i] == b[i];
    }
    forall id | id in RecordIds(a) ensures id in RecordIds(ab) {
      var i :| 0 <= i < |a| && Enrichment.IdOf(a[i]).Some? && Enrichment.IdOf(a[i]).value == id;
      assert ab[i] == a[i];
    }
  }

  /** The records a run appends carry exactly the ids of the comics it got through. */
  lemma AddedRecordIds(enrich: Enricher, comics: seq<FeedReader.Comic>, added: seq<Json>)
    requires StampsIds(enrich)
    requires EnrichedPrefix(enrich, comics, added)
    ensures RecordIds(added) == FeedReader.ComicIds(comics[..|added|])
    ensures forall i :: 0 <= i < |added| ==> Enrichment.IdOf(added[i]) == Some(comics[i].id)
  {
    var pre := comics[..|added|];
    forall i | 0 <= i < |added|
      ensures Enrichment.IdOf(added[i]) == Some(comics[i].id)
    {
      assert enrich(comics[i]) == Success(added[i]);
    }
    forall id | id in FeedReader.ComicIds(pre) ensures id in RecordIds(added) {
      var i :| 0 <= i < |pre| && pre[i].id == id;
      assert Enrichment.IdOf(added[i]) == Some(id);
    }
  }

  /** The ordering invariant: every id marked seen has a saved record. */
  ghost predicate SeenHaveRecords(st: Store)
  {
    LoadProcessed(st.seen) <= RecordIds(LoadComicInfo(st.records))
  }

  /**
   Because the record is saved before its id is marked, the ordering
   invariant holds after each of the two writes of `PersistSteps`, not only
   after both (see `MarkFirstBreaksSeenHaveRecords` for the other order).
   */
  lemma PersistKeepsSeenHaveRecords(st: Store, id: string, record: Json)
    requires SeenHaveRecords(st)
    requires Enrichment.IdOf(record) == Some(id)
    ensures SeenHaveRecords(PersistSteps(st, id, record).0)
    ensures SeenHaveRecords(PersistSteps(st, id, record).1)
  {
    var rs := LoadComicInfo(st.records);
    RecordIdsAppend(rs, [record]);
    assert id in RecordIds([record]) by {
      assert [record][0] == record;
    }
  }

  /**
   The other order would not keep the invariant: marking a fresh id before
   its record is saved leaves a processed id without a record in between.
   */
  lemma MarkFirstBreaksSeenHaveRecords(st: Store, id: string)
    requires id !in RecordIds(LoadComicInfo(st.records))
    ensures !SeenHaveRecords(MarkSeen(st, id))
  {
  }

  /**
   A whole run keeps the ordering invariant whatever the feed holds and
   however the run ends.
   */
  lemma UpdateComicKeepsSeenHaveRecords(st: Store, enrich: Enricher, comics: seq<FeedReader.Comic>)
    requires StampsIds(enrich)
    requires SeenHaveRecords(st)
    ensures SeenHaveRecords(UpdateComic(st, enrich, comics).store)
  {
    var r := UpdateComic(st, enrich, comics);
    AddedRecordIds(enrich, comics, r.added);
    RecordIdsAppend(LoadComicInfo(st.records), r.added);
  }

  /** `update_route` keeps the ordering invariant on every outcome. */
  lemma UpdateRouteKeepsSeenHaveRecords(st: Store, entries: seq<FeedReader.Entry>, prompt: string,
                                        ai: Enrichment.Oracle, decode: Enrichment.Decoder)
    requires SeenHaveRecords(st)
    ensures SeenHaveRecords(UpdateRoute(st, entries, prompt, ai, decode).store)
  {
    var parsed := FeedReader.ParseFeed(LoadProcessed(st.seen), entries);
    if parsed.Success? && |parsed.value| > 0 {
      EnrichWithStampsIds(prompt, ai, decode);
      UpdateComicKeepsSeenHaveRecords(st, EnrichWith(prompt, ai, decode), parsed.value);
    }
  }

  /** Each saved record carries an id, no id is saved twice, and the saved ids are the seen set. */
  ghost predicate AtMostOnce(st: Store)
  {
    var rs := LoadComicInfo(st.records);
    UniqueIds(rs) && RecordIds(rs) == LoadProcessed(st.seen)
  }

  /** Every record carries an id and no two records carry the same one. */
  ghost predicate UniqueIds(rs: seq<Json>)
  {
    && (forall i :: 0 <= i < |rs| ==> Enrichment.IdOf(rs[i]).Some?)
    && (forall i, j :: 0 <= i < j < |rs| ==> Enrichment.IdOf(rs[i]) != Enrichment.IdOf(rs[j]))
  }

  /** Two lists of records with unique ids and no id in common concatenate to one. */
  lemma UniqueIdsAppend(a: seq<Json>, b: seq<Json>)
    requires UniqueIds(a) && UniqueIds(b)
    requires RecordIds(a) !! RecordIds(b)
    ensures UniqueIds(a + b)
  {
    var ab := a + b;
    forall i | 0 <= i < |ab| ensures Enrichment.IdOf(ab[i]).Some? {
      if i >= |a| { assert ab[i] == b[i - |a|]; } else { assert ab[i] == a[i]; }
    }
    forall i, j | 0 <= i < j < |ab|
      ensures Enrichment.IdOf(ab[i]) != Enrichment.IdOf(ab[j])
    {
      if j >= |a| {
        assert ab[j] == b[j - |a|];
        assert Enrichment.IdOf(b[j - |a|]).value in RecordIds(b);
        if i >= |a| {
          assert ab[i] == b[i - |a|];
        } else {
          assert ab[i] == a[i];
          assert Enrichment.IdOf(a[i]).value in RecordIds(a);
        }
      } else {
        assert ab[i] == a[i] && ab[j] == a[j];
      }
    }
  }

  /** A run over comics that are unseen and pairwise distinct keeps at most one record per id. */
  lemma UpdateComicKeepsAtMostOnce(st: Store, enrich: Enricher, comics: seq<FeedReader.Comic>)
    requires StampsIds(enrich)
    requires AtMostOnce(st)
    requires FeedReader.DistinctComicIds(comics)
    requires forall i :: 0 <= i < |comics| ==> comics[i].id !in LoadProcessed(st.seen)
    ensures AtMostOnce(UpdateComic(st, enrich, comics).store)
  {
    RunKeepsAtMostOnce(st, enrich, comics, UpdateComic(st, enrich, comics));
  }

  lemma RunKeepsAtMostOnce(st: Store, enrich: Enricher, comics: seq<FeedReader.Comic>, r: RunResult)
    requires StampsIds(enrich)
    requires AtMostOnce(st)
    requires FeedReader.DistinctComicIds(comics)
    requires forall i :: 0 <= i < |comics| ==> comics[i].id !in LoadProcessed(st.seen)
    requires RunSpec(st, enrich, comics, r)
    ensures AtMostOnce(r.store)
  {
    var old_ := LoadComicInfo(st.records);
    AddedRecordIds(enrich, comics, r.added);
    RecordIdsAppend(old_, r.added);
    forall i, j | 0 <= i < j < |r.added|
      ensures Enrichment.IdOf(r.added[i]) != Enrichment.IdOf(r.added[j])
    {
      assert comics[i].id != comics[j].id;
    }
    forall id | id in RecordIds(r.added) ensures id !in RecordIds(old_) {
      var k :| 0 <= k < |r.added| && comics[..|r.added|][k].id == id;
      assert comics[k].id !in LoadProcessed(st.seen);
    }
    UniqueIdsAppend(old_, r.added);
  }

  /**
   At most one record per id across runs, provided the feed never lists one
   id twice: the processed set is loaded once per read, so a repeated entry
   is not filtered (see `DuplicateEntryStoredTwice`).
   */
  lemma UpdateRouteKeepsAtMostOnce(st: Store, entries: seq<FeedReader.Entry>, prompt: string,
                                   ai: Enrichment.Oracle, decode: Enrichment.Decoder)
    requires AtMostOnce(st)
    requires FeedReader.DistinctIds(entries)
    ensures AtMostOnce(UpdateRoute(st, entries, prompt, ai, decode).store)
  {
    var parsed := FeedReader.ParseFeed(LoadProcessed(st.seen), entries);
    if parsed.Success? && |parsed.value| > 0 {
      EnrichWithStampsIds(prompt, ai, decode);
      FeedReader.ParseFeedKeepsDistinctIds(LoadProcessed(st.seen), entries);
      UpdateComicKeepsAtMostOnce(st, EnrichWith(prompt, ai, decode), parsed.value);
    }
  }

  /**
   `parse_xkcd_feed` as written: a feed that lists the same new entry twice gets
   it enriched and saved twice in one run, breaking `AtMostOnce`.
   */
  lemma DuplicateEntryStoredTwice(st: Store, e: FeedReader.Entry, prompt: string,
                                  ai: Enrichment.Oracle, decode: Enrichment.Decoder)
    requires e.id !in LoadProcessed(st.seen)
    requires FeedReader.ToComic(e).Success?
    requires EnrichComic(prompt, ai, decode, FeedReader.ToComic(e).value).Success?
    ensures var r := UpdateRoute(st, [e, e], prompt, ai, decode);
            var record := EnrichComic(prompt, ai, decode, FeedReader.ToComic(e).value).value;
            LoadComicInfo(r.store.records) == LoadComicInfo(st.records) + [record, record]
    ensures !AtMostOnce(UpdateRoute(st, [e, e], prompt, ai, decode).store)
  {
    var c := FeedReader.ToComic(e).value;
    FeedReader.ParseFeedRepeated(LoadProcessed(st.seen), e);
    RouteRunsUpdateComic(st, [e, e], prompt, ai, decode, [c, c]);
    var enrich := EnrichWith(prompt, ai, decode);
    var record := EnrichComic(prompt, ai, decode, c).value;
    EnrichWithStampsIds(prompt, ai, decode);
    RunTwice(st, enrich, c, record, UpdateComic(st, enrich, [c, c]));
  }

  /** When the reader returns comics, the route's store is the one `update_comic` leaves. */
  lemma RouteRunsUpdateComic(st: Store, entries: seq<FeedReader.Entry>, prompt: string,
                             ai: Enrichment.Oracle, decode: Enrichment.Decoder, comics: seq<FeedReader.Comic>)
    requires FeedReader.ParseFeed(LoadProcessed(st.seen), entries) == Success(comics)
    requires |comics| > 0
    ensures var run := UpdateComic(st, EnrichWith(prompt, ai, decode), comics);
            UpdateRoute(st, entries, prompt, ai, decode) ==
              RouteResult(run.store, if run.status.Completed? then Updated else UpdateFailed(run.status))
  {
  }

  /** With nothing unseen the route changes nothing and answers "no new comics". */
  lemma RouteNothingNew(st: Store, entries: seq<FeedReader.Entry>, prompt: string,
                        ai: Enrichment.Oracle, decode: Enrichment.Decoder)
    requires forall j :: 0 <= j < |entries| ==> entries[j].id in LoadProcessed(st.seen)
    ensures UpdateRoute(st, entries, prompt, ai, decode) == RouteResult(st, NothingNew)
  {
    FeedReader.ParseFeedAllProcessed(LoadProcessed(st.seen), entries);
  }

  /** A run that did not abort marks every comic it was given. */
  lemma FullRunMarksAll(st: Store, enrich: Enricher, comics: seq<FeedReader.Comic>, r: RunResult)
    requires RunSpec(st, enrich, comics, r) && !r.status.Aborted?
    ensures LoadProcessed(r.store.seen) == LoadProcessed(st.seen) + FeedReader.ComicIds(comics)
  {
    assert comics[..|r.added|] == comics;
  }

  /** A run over one comic listed twice saves its record twice. */
  lemma RunTwice(st: Store, enrich: Enricher, c: FeedReader.Comic, record: Json, r: RunResult)
    requires StampsIds(enrich)
    requires enrich(c) == Success(record)
    requires RunSpec(st, enrich, [c, c], r)
    ensures LoadComicInfo(r.store.records) == LoadComicInfo(st.records) + [record, record]
    ensures !AtMostOnce(r.store)
  {
    RunOverSuccesses(st, enrich, [c, c], r);
    assert r.added == [record, record];
    var rs := LoadComicInfo(r.store.records);
    var n := |LoadComicInfo(st.records)|;
    assert rs[n] == record && rs[n + 1] == record;
  }

  /** When every comic enriches, the run appends one record per comic. */
  lemma RunOverSuccesses(st: Store, enrich: Enricher, comics: seq<FeedReader.Comic>, r: RunResult)
    requires forall i :: 0 <= i < |comics| ==> enrich(comics[i]).Success?
    requires RunSpec(st, enrich, comics, r)
    ensures |r.added| == |comics| && !r.status.Aborted?
    ensures forall i :: 0 <= i < |comics| ==> r.added[i] == enrich(comics[i]).value
  {
  }

  /**
   Idempotence: after a run that got through every new comic (whether or not
   the feed could then be written), triggering the route again with the same
   feed is a no-op success that changes nothing, whatever the model would
   answer this time.
   */
  lemma RerunIsNoOp(st: Store, entries: seq<FeedReader.Entry>, prompt: string,
                    ai: Enrichment.Oracle, decode: Enrichment.Decoder,
                    prompt2: string, ai2: Enrichment.Oracle, decode2: Enrichment.Decoder)
    requires var o := UpdateRoute(st, entries, prompt, ai, decode).outcome;
             o.NothingNew? || o.Updated? || o == UpdateFailed(PublishFailed)
    ensures var st1 := UpdateRoute(st, entries, prompt, ai, decode).store;
            UpdateRoute(st1, entries, prompt2, ai2, decode2) == RouteResult(st1, NothingNew)
  {
    var seen := LoadProcessed(st.seen);
    var parsed := FeedReader.ParseFeed(seen, entries);
    var st1 := UpdateRoute(st, entries, prompt, ai, decode).store;
    if parsed.Success? && |parsed.value| > 0 {
      var comics := parsed.value;
      var enrich := EnrichWith(prompt, ai, decode);
      RouteRunsUpdateComic(st, entries, prompt, ai, decode, comics);
      var r := UpdateComic(st, enrich, comics);
      assert !r.status.Aborted? && st1 == r.store;
      FullRunMarksAll(st, enrich, comics, r);
      FeedReader.ParseFeedCoversUnseen(seen, entries);
      forall j | 0 <= j < |entries| ensures entries[j].id in LoadProcessed(st1.seen) {
        if entries[j].id !in seen {
          assert entries[j].id in FeedReader.ComicIds(comics);
        }
      }
      RouteNothingNew(st1, entries, prompt2, ai2, decode2);
    }
  }

  /**
   A saved record the feed generator cannot read (the model's answer lacked
   `title.chinese`, say) stays in the store for good: no later run can
   regenerate the feed, so the route never again answers "updated" and the
   published document stays as it was.
   */
  lemma UnpublishableRecordBlocksFeed(st: Store, i: nat, entries: seq<FeedReader.Entry>, prompt: string,
                                      ai: Enrichment.Oracle, decode: Enrichment.Decoder)
    requires i < |LoadComicInfo(st.records)| && !Publisher.Publishable(LoadComicInfo(st.records)[i])
    ensures var r := UpdateRoute(st, entries, prompt, ai, decode);
            !r.outcome.Updated? && r.store.feed == st.feed &&
            i < |LoadComicInfo(r.store.records)| && !Publisher.Publishable(LoadComicInfo(r.store.records)[i])
  {
    var parsed := FeedReader.ParseFeed(LoadProcessed(st.seen), entries);
    if parsed.Success? && |parsed.value| > 0 {
      RouteRunsUpdateComic(st, entries, prompt, ai, decode, parsed.value);
      var enrich := EnrichWith(prompt, ai, decode);
      RunNeverPublishes(st, i, enrich, parsed.value, UpdateComic(st, enrich, parsed.value));
    }
  }

  lemma RunNeverPublishes(st: Store, i: nat, enrich: Enricher, comics: seq<FeedReader.Comic>, r: RunResult)
    requires i < |LoadComicInfo(st.records)| && !Publisher.Publishable(LoadComicInfo(st.records)[i])
    requires RunSpec(st, enrich, comics, r)
    requires FeedOutcome(r.status, st.feed, r.store)
    ensures !r.status.Completed? && r.store.feed == st.feed
    ensures i < |LoadComicInfo(r.store.records)| && !Publisher.Publishable(LoadComicInfo(r.store.records)[i])
  {
    var rs := LoadComicInfo(r.store.records);
    assert rs[i] == LoadComicInfo(st.records)[i];
    assert Publisher.EntryOf(rs[i]).None?;
    Publisher.BuildEntriesSpec(rs);
  }
}
