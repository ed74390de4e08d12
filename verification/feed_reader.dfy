/**
 `parse_xkcd_feed`: keep the feed entries whose id has not been processed,
 in feed order, and turn each into a candidate comic by pulling the image
 address and the alt text out of the entry's summary markup.
 */
module FeedReader {
  import opened Wrappers
  import AttrSearch

  /** The fields of a parsed Atom entry that the reader uses. */
  datatype Entry = Entry(id: string, title: string, updated: string, summary: string)

  /** A candidate comic: `{id, title, published, img_url, description}`. */
  datatype Comic = Comic(id: string, title: string, published: string, imgUrl: string, description: string)

  /** `.group(1)` on a failed search raises; the error names the entry and the attribute. */
  datatype ReadError = MissingImage(entryId: string) | MissingDescription(entryId: string)

  /** The entries whose id is not in `processed`, in feed order. */
  function Unseen(processed: set<string>, entries: seq<Entry>): (r: seq<Entry>)
    ensures |r| <= |entries|
    ensures forall k :: 0 <= k < |r| ==> r[k].id !in processed
  {
    if |entries| == 0 then []
    else if entries[0].id in processed then Unseen(processed, entries[1..])
    else [entries[0]] + Unseen(processed, entries[1..])
  }

  /**
   `Unseen` is exactly the subsequence of unprocessed entries: there is a
   strictly increasing choice of feed positions that picks out every
   unprocessed entry and nothing else.
   */
  lemma {:induction false} UnseenIsSubsequence(processed: set<string>, entries: seq<Entry>)
    returns (idx: seq<nat>)
    ensures |idx| == |Unseen(processed, entries)|
    ensures forall k :: 0 <= k < |idx| ==> idx[k] < |entries| && Unseen(processed, entries)[k] == entries[idx[k]]
    ensures Increasing(idx)
    ensures forall j :: 0 <= j < |entries| ==> (j in idx <==> entries[j].id !in processed)
  {
    idx := Positions(processed, entries);
    PositionsPick(processed, entries);
    PositionsIncreasing(processed, entries);
    PositionsMembership(processed, entries);
  }

  /** The feed positions of the unprocessed entries, in feed order. */
  function Positions(processed: set<string>, entries: seq<Entry>): seq<nat>
  {
    if |entries| == 0 then []
    else
      var rest := Shift(Positions(processed, entries[1..]));
      if entries[0].id in processed then rest else [0] + rest
  }

  lemma {:induction false} PositionsPick(processed: set<string>, entries: seq<Entry>)
    ensures |Positions(processed, entries)| == |Unseen(processed, entries)|
    ensures forall k :: 0 <= k < |Positions(processed, entries)| ==>
              Positions(processed, entries)[k] < |entries| &&
              Unseen(processed, entries)[k] == entries[Positions(processed, entries)[k]]
  {
    if |entries| > 0 {
      var tail := entries[1..];
      PositionsPick(processed, tail);
      var rest, v := Positions(processed, tail), Unseen(processed, tail);
      var shifted := Shift(rest);
      forall k | 0 <= k < |shifted|
        ensures shifted[k] < |entries| && v[k] == entries[shifted[k]]
      {
        assert tail[rest[k]] == entries[shifted[k]];
      }
      if entries[0].id !in processed {
        var idx, u := [0] + shifted, [entries[0]] + v;
        forall k | 0 < k < |idx|
          ensures idx[k] < |entries| && u[k] == entries[idx[k]]
        {
          assert idx[k] == shifted[k - 1] && u[k] == v[k - 1];
        }
      }
    }
  }

  lemma {:induction false} PositionsIncreasing(processed: set<string>, entries: seq<Entry>)
    ensures Increasing(Positions(processed, entries))
  {
    if |entries| > 0 {
      var rest := Positions(processed, entries[1..]);
      PositionsIncreasing(processed, entries[1..]);
      ShiftIncreasing(rest);
      IncreasingCons(rest);
    }
  }

  lemma {:induction false} PositionsMembership(processed: set<string>, entries: seq<Entry>)
    ensures forall j :: 0 <= j < |entries| ==> (j in Positions(processed, entries) <==> entries[j].id !in processed)
  {
    if |entries| > 0 {
      var tail := entries[1..];
      PositionsMembership(processed, tail);
      var shifted := Shift(Positions(processed, tail));
      forall j | 1 <= j < |entries|
        ensures j in shifted <==> entries[j].id !in processed
      {
        assert tail[j - 1] == entries[j];
      }
      assert 0 !in shifted;
      if entries[0].id !in processed {
        var idx := [0] + shifted;
        forall j | 0 < j < |entries|
          ensures j in idx <==> entries[j].id !in processed
        {
          assert j in idx <==> j in shifted;
        }
      }
    }
  }

  /** Strictly increasing positions. */
  predicate Increasing(idx: seq<nat>)
  {
    forall k, l :: 0 <= k < l < |idx| ==> idx[k] < idx[l]
  }

  lemma ShiftIncreasing(idx: seq<nat>)
    requires Increasing(idx)
    ensures Increasing(Shift(idx))
  {
  }

  /** Position 0 in front of shifted increasing positions keeps them increasing. */
  lemma IncreasingCons(idx: seq<nat>)
    requires Increasing(idx)
    ensures Increasing([0] + Shift(idx))
  {
    var r := [0] + Shift(idx);
    forall k, l | 0 <= k < l < |r|
      ensures r[k] < r[l]
    {
      assert r[l] == Shift(idx)[l - 1];
      if k > 0 { assert r[k] == Shift(idx)[k - 1]; }
    }
  }

  /** Every position moved one place right, as when the feed loses its first entry. */
  function Shift(idx: seq<nat>): (r: seq<nat>)
    ensures |r| == |idx|
    ensures forall k :: 0 <= k < |r| ==> r[k] == idx[k] + 1
    ensures forall j :: j in r <==> j >= 1 && j - 1 in idx
  {
    var r := seq(|idx|, k requires 0 <= k < |idx| => idx[k] + 1);
    assert forall j :: j - 1 in idx && j >= 1 ==> j in r by {
      forall j | j >= 1 && j - 1 in idx
        ensures j in r
      {
        var k :| 0 <= k < |idx| && idx[k] == j - 1;
        assert r[k] == j;
      }
    }
    r
  }

  /** One entry as a candidate comic; the image search runs first, as in the dict literal. */
  function ToComic(e: Entry): (r: Result<Comic, ReadError>)
    ensures r.Success? <==>
              AttrSearch.Extract(e.summary, AttrSearch.SrcPrefix).Some? &&
              AttrSearch.Extract(e.summary, AttrSearch.TitlePrefix).Some?
    ensures r.Success? ==> r.value.id == e.id && r.value.title == e.title && r.value.published == e.updated
    ensures r.Failure? && AttrSearch.Extract(e.summary, AttrSearch.SrcPrefix).None? ==> r.error == MissingImage(e.id)
    ensures r.Failure? && AttrSearch.Extract(e.summary, AttrSearch.SrcPrefix).Some? ==> r.error == MissingDescription(e.id)
    ensures r.Success? ==> r.value.imgUrl == AttrSearch.Extract(e.summary, AttrSearch.SrcPrefix).value
    ensures r.Success? ==> r.value.description == AttrSearch.Extract(e.summary, AttrSearch.TitlePrefix).value
  {
    match AttrSearch.Extract(e.summary, AttrSearch.SrcPrefix)
    case None => Failure(MissingImage(e.id))
    case Some(img) =>
      match AttrSearch.Extract(e.summary, AttrSearch.TitlePrefix)
      case None => Failure(MissingDescription(e.id))
      case Some(alt) => Success(Comic(e.id, e.title, e.updated, img, alt))
  }

  /**
   The candidate comics of the given entries, in order; the first entry whose
   summary lacks either attribute aborts the whole read with its error.
   */
  function ComicsOf(es: seq<Entry>): (r: Result<seq<Comic>, ReadError>)
    ensures r.Success? <==> forall k :: 0 <= k < |es| ==> ToComic(es[k]).Success?
    ensures r.Success? ==> |r.value| == |es|
    ensures r.Success? ==> forall k :: 0 <= k < |es| ==> ToComic(es[k]) == Success(r.value[k])
    ensures r.Failure? ==> FirstFailure(es, r.error)
  {
    if |es| == 0 then Success([])
    else
      var tail := es[1..];
      match ToComic(es[0])
      case Failure(err) =>
        assert FailsFirstAt(ToComic, es, err, 0);
        Failure(err)
      case Success(c) =>
        match ComicsOf(tail)
        case Failure(err) =>
          FirstFailureCons(ToComic, es, err);
          Failure(err)
        case Success(cs) =>
          ConvertedCons(ToComic, es, c, cs);
          Success([c] + cs)
  }

  /** A first failure in the tail behind a converting head is the first failure of the whole. */
  lemma FirstFailureCons(convert: Entry -> Result<Comic, ReadError>, es: seq<Entry>, err: ReadError)
    requires |es| > 0 && convert(es[0]).Success?
    requires exists k :: FailsFirstAt(convert, es[1..], err, k)
    ensures exists k :: FailsFirstAt(convert, es, err, k)
  {
    var tail := es[1..];
    var k :| FailsFirstAt(convert, tail, err, k);
    assert es[k + 1] == tail[k];
    forall m | 0 < m < k + 1 ensures convert(es[m]).Success? {
      assert es[m] == tail[m - 1];
    }
    assert FailsFirstAt(convert, es, err, k + 1);
  }

  /** The head's comic in front of the tail's comics lines up with the whole sequence. */
  lemma ConvertedCons(convert: Entry -> Result<Comic, ReadError>, es: seq<Entry>, c: Comic, cs: seq<Comic>)
    requires |es| > 0 && convert(es[0]) == Success(c)
    requires |cs| == |es| - 1
    requires forall k :: 0 <= k < |cs| ==> convert(es[1..][k]) == Success(cs[k])
    ensures forall k :: 0 <= k < |es| ==> convert(es[k]) == Success(([c] + cs)[k])
  {
    forall k | 0 < k < |es|
      ensures convert(es[k]) == Success(([c] + cs)[k])
    {
      assert es[k] == es[1..][k - 1] && ([c] + cs)[k] == cs[k - 1];
    }
  }

  /** Entry `k` fails to convert with `err` and every entry before it converts. */
  ghost predicate FailsFirstAt(convert: Entry -> Result<Comic, ReadError>, es: seq<Entry>, err: ReadError, k: int)
  {
    && 0 <= k < |es|
    && convert(es[k]) == Failure(err)
    && forall m :: 0 <= m < k ==> convert(es[m]).Success?
  }

  /** `err` is the error of the first entry that fails to convert. */
  ghost predicate FirstFailure(es: seq<Entry>, err: ReadError)
  {
    exists k :: FailsFirstAt(ToComic, es, err, k)
  }

  /**
   `parse_xkcd_feed` with the processed set already loaded. The reader
   filters and extracts in one pass; both are pure, so extracting from the
   filtered entries in order raises at the same entry.
   */
  function ParseFeed(processed: set<string>, entries: seq<Entry>): (r: Result<seq<Comic>, ReadError>)
    ensures r.Success? ==> forall k :: 0 <= k < |r.value| ==> r.value[k].id !in processed
    ensures r.Success? <==> forall e :: e in Unseen(processed, entries) ==> ToComic(e).Success?
    ensures r.Success? ==> |r.value| == |Unseen(processed, entries)|
    ensures r.Success? ==> forall k :: 0 <= k < |r.value| ==> ToComic(Unseen(processed, entries)[k]) == Success(r.value[k])
    ensures r.Failure? ==> FirstFailure(Unseen(processed, entries), r.error)
  {
    ComicsOf(Unseen(processed, entries))
  }

  /** No two entries of the feed share an id. */
  predicate DistinctIds(entries: seq<Entry>)
  {
    forall i, j :: 0 <= i < j < |entries| ==> entries[i].id != entries[j].id
  }

  /** No two comics share an id. */
  predicate DistinctComicIds(comics: seq<Comic>)
  {
    forall i, j :: 0 <= i < j < |comics| ==> comics[i].id != comics[j].id
  }

  /** A feed without repeated ids yields comics without repeated ids. */
  lemma ParseFeedKeepsDistinctIds(processed: set<string>, entries: seq<Entry>)
    requires DistinctIds(entries)
    requires ParseFeed(processed, entries).Success?
    ensures DistinctComicIds(ParseFeed(processed, entries).value)
  {
    var cs := ParseFeed(processed, entries).value;
    var u := Unseen(processed, entries);
    var idx := UnseenIsSubsequence(processed, entries);
    forall i, j | 0 <= i < j < |cs|
      ensures cs[i].id != cs[j].id
    {
      assert ToComic(u[i]) == Success(cs[i]) && ToComic(u[j]) == Success(cs[j]);
      assert idx[i] < idx[j];
      assert entries[idx[i]].id != entries[idx[j]].id;
    }
  }

  /** An unprocessed entry listed twice yields its comic twice: the processed set is not re-read in between. */
  lemma ParseFeedRepeated(processed: set<string>, e: Entry)
    requires e.id !in processed
    requires ToComic(e).Success?
    ensures ParseFeed(processed, [e, e]) == Success([ToComic(e).value, ToComic(e).value])
  {
    var c := ToComic(e).value;
    assert [e, e][1..] == [e];
    assert [e][1..] == [];
    assert Unseen(processed, [e, e]) == [e, e];
    var r := ComicsOf([e, e]);
    assert ToComic([e, e][0]) == Success(c) && ToComic([e, e][1]) == Success(c);
    assert r.Success? && |r.value| == 2;
    assert r.value[0] == c && r.value[1] == c;
    assert r.value == [c, c];
  }

  /** The ids of some comics. */
  function ComicIds(cs: seq<Comic>): set<string>
  {
    set i | 0 <= i < |cs| :: cs[i].id
  }

  /** A successful read yields a comic for every unprocessed entry of the feed. */
  lemma ParseFeedCoversUnseen(processed: set<string>, entries: seq<Entry>)
    requires ParseFeed(processed, entries).Success?
    ensures forall j :: 0 <= j < |entries| && entries[j].id !in processed ==>
              entries[j].id in ComicIds(ParseFeed(processed, entries).value)
  {
    var cs := ParseFeed(processed, entries).value;
    var u := Unseen(processed, entries);
    var idx := UnseenIsSubsequence(processed, entries);
    forall j | 0 <= j < |entries| && entries[j].id !in processed
      ensures entries[j].id in ComicIds(cs)
    {
      var k :| 0 <= k < |idx| && idx[k] == j;
      assert u[k] == entries[j];
      assert ToComic(u[k]) == Success(cs[k]);
    }
  }

  /** Once every entry's id is processed, the read finds nothing to do. */
  lemma ParseFeedAllProcessed(processed: set<string>, entries: seq<Entry>)
    requires forall j :: 0 <= j < |entries| ==> entries[j].id in processed
    ensures ParseFeed(processed, entries) == Success([])
  {
    var idx := UnseenIsSubsequence(processed, entries);
  }
}
