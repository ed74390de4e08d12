/**
 The enrichment step of `update_comic` for one comic: build the request of
 `explain_comic`, ask the model (an oracle that may fail), cut the fenced
 JSON block out of the reply, decode it (an abstract partial decoder) and
 overwrite the `id`, `published` and `image_url` keys from the comic.
 */
module Enrichment {
  import opened Wrappers
  import opened JsonValue
  import Fence
  import FeedReader

  /** `update_comic` passes this model name, whatever the environment configures. */
  const ModelName: string := "google/gemini-2.0-flash-001"

  /** The chat completion request: system prompt, user text and the comic's image. */
  datatype Request = Request(model: string, systemPrompt: string, userText: string, imageUrl: string)

  /** What the completion endpoint gives back: the message text, or a raised error. */
  datatype Reply = Answer(text: string) | TransportError

  /** Why enriching one comic raised. */
  datatype EnrichError =
    | Transport         // the completion call itself raised
    | NoFencedBlock     // the fence search found nothing and `.group` raised
    | Undecodable       // `json.loads` raised
    | NotAnObject       // the decoded value does not support `x["id"] = ...`

  /** The completion endpoint, as a function from request to reply. */
  type Oracle = Request -> Reply

  /** `json.loads`, left abstract: `None` where it raises. */
  type Decoder = string -> Option<Json>

  /** The label of the first line of the user message. */
  const TitleLabel: string := "漫画标题："

  /** The line break and label that introduce the official description. */
  const DescriptionLabel: string := "\n漫画官方描述："

  /**
   `explain_comic`'s message: title and official description on two labelled
   lines, plus the image. `update_comic` passes a fixed model name.
   */
  function BuildRequest(systemPrompt: string, c: FeedReader.Comic): (q: Request)
    ensures q.model == ModelName && q.imageUrl == c.imgUrl && q.systemPrompt == systemPrompt
    ensures q.userText == TitleLabel + c.title + DescriptionLabel + c.description
  {
    Request(ModelName, systemPrompt, TitleLabel + c.title + DescriptionLabel + c.description, c.imgUrl)
  }

  /** Position of the first line feed at or after `k`, or `|s|`. */
  function FirstNewline(s: string, k: nat): (n: nat)
    requires k <= |s|
    ensures k <= n <= |s|
    ensures n < |s| ==> s[n] == '\n'
    ensures forall m :: k <= m < n ==> s[m] != '\n'
    decreases |s| - k
  {
    if k == |s| || s[k] == '\n' then k else FirstNewline(s, k + 1)
  }

  /**
   A reader of the user message: the title is the first line after its
   label, the description everything after the second label.
   */
  function ReadUserText(t: string): (r: Option<(string, string)>)
    ensures r.Some? ==> t == TitleLabel + r.value.0 + DescriptionLabel + r.value.1
    ensures r.Some? ==> '\n' !in r.value.0
  {
    if |t| < |TitleLabel| || t[..|TitleLabel|] != TitleLabel then None
    else
      var n := FirstNewline(t, |TitleLabel|);
      if n + |DescriptionLabel| <= |t| && t[n..n + |DescriptionLabel|] == DescriptionLabel then
        var title, description := t[|TitleLabel|..n], t[n + |DescriptionLabel|..];
        assert t == t[..|TitleLabel|] + title + t[n..n + |DescriptionLabel|] + description;
        assert forall i :: 0 <= i < |title| ==> title[i] == t[|TitleLabel| + i];
        Some((title, description))
      else None
  }

  /**
   Round trip: the message of a comic whose title is one line reads back as
   that title and description, so the two are neither swapped nor merged.
   */
  lemma UserTextRoundTrip(systemPrompt: string, c: FeedReader.Comic)
    requires '\n' !in c.title
    ensures ReadUserText(BuildRequest(systemPrompt, c).userText) == Some((c.title, c.description))
  {
    var t := BuildRequest(systemPrompt, c).userText;
    var k := |TitleLabel|;
    var n := k + |c.title|;
    assert t[..k] == TitleLabel;
    assert t[k..n] == c.title;
    assert t[n..n + |DescriptionLabel|] == DescriptionLabel;
    assert t[n + |DescriptionLabel|..] == c.description;
    forall m | k <= m < n ensures t[m] != '\n' {
      assert t[m] == c.title[m - k];
    }
    assert t[n] == '\n';
    FirstNewlineAt(t, k, n);
  }

  /** The first line feed from `k` is at `n` when `n` holds one and nothing in between does. */
  lemma {:induction false} FirstNewlineAt(s: string, k: nat, n: nat)
    requires k <= n < |s| && s[n] == '\n'
    requires forall m :: k <= m < n ==> s[m] != '\n'
    ensures FirstNewline(s, k) == n
    decreases n - k
  {
    if k < n {
      FirstNewlineAt(s, k + 1, n);
    }
  }

  /** The keys `update_comic` overwrites from the comic. */
  const InjectedKeys: set<string> := {"id", "published", "image_url"}

  /** The id a saved record carries, when it is an object with a string `id`. */
  function IdOf(record: Json): Option<string>
  {
    match Member(record, "id")
    case Some(JStr(id)) => Some(id)
    case _ => None
  }

  /**
   The three assignments of `update_comic`. They succeed exactly on an
   object; the three keys then hold the comic's values whatever the model
   returned, every other key keeps its value, and the key order is the
   decoded order with any missing injected key appended.
   */
  function InjectFields(j: Json, c: FeedReader.Comic): (r: Result<Json, EnrichError>)
    ensures r.Success? <==> j.JObj?
    ensures r.Failure? ==> r.error == NotAnObject
    ensures r.Success? ==> r.value.JObj?
    ensures r.Success? ==> Lookup(r.value.fields, "id") == Some(JStr(c.id))
    ensures r.Success? ==> Lookup(r.value.fields, "published") == Some(JStr(c.published))
    ensures r.Success? ==> Lookup(r.value.fields, "image_url") == Some(JStr(c.imgUrl))
    ensures r.Success? ==> forall k :: k !in InjectedKeys ==> Lookup(r.value.fields, k) == Lookup(j.fields, k)
    ensures r.Success? ==> Keys(j.fields) <= Keys(r.value.fields)
    ensures r.Success? && DistinctKeys(j.fields) ==> DistinctKeys(r.value.fields)
  {
    match j
    case JObj(d) =>
      InjectedLookups(d, c);
      InjectedKeysKept(d, c);
      Success(JObj(Inject(d, c)))
    case _ => Failure(NotAnObject)
  }

  /** The three assignments, in the order `update_comic` performs them. */
  function Inject(d: seq<(string, Json)>, c: FeedReader.Comic): seq<(string, Json)>
  {
    Assign(Assign(Assign(d, "id", JStr(c.id)), "published", JStr(c.published)), "image_url", JStr(c.imgUrl))
  }

  /** After the injection the three keys read back the comic's values and no other key changed. */
  lemma InjectedLookups(d: seq<(string, Json)>, c: FeedReader.Comic)
    ensures Lookup(Inject(d, c), "id") == Some(JStr(c.id))
    ensures Lookup(Inject(d, c), "published") == Some(JStr(c.published))
    ensures Lookup(Inject(d, c), "image_url") == Some(JStr(c.imgUrl))
    ensures forall k :: k !in InjectedKeys ==> Lookup(Inject(d, c), k) == Lookup(d, k)
  {
    var d1 := Assign(d, "id", JStr(c.id));
    var d2 := Assign(d1, "published", JStr(c.published));
    assert Lookup(Inject(d, c), "id") == Lookup(d2, "id") == Lookup(d1, "id");
    assert Lookup(Inject(d, c), "published") == Lookup(d2, "published");
  }

  /** The injection keeps every decoded key and, with them, their distinctness. */
  lemma InjectedKeysKept(d: seq<(string, Json)>, c: FeedReader.Comic)
    ensures Keys(d) <= Keys(Inject(d, c))
    ensures DistinctKeys(d) ==> DistinctKeys(Inject(d, c))
  {
    var d1 := Assign(d, "id", JStr(c.id));
    var d2 := Assign(d1, "published", JStr(c.published));
    assert Keys(d) <= Keys(d1) <= Keys(d2) <= Keys(Inject(d, c));
    if DistinctKeys(d) {
      AssignKeepsDistinctKeys(d, "id", JStr(c.id));
      AssignKeepsDistinctKeys(d1, "published", JStr(c.published));
      AssignKeepsDistinctKeys(d2, "image_url", JStr(c.imgUrl));
    }
  }

  /** Injecting twice changes nothing more than injecting once. */
  lemma InjectFieldsIdempotent(j: Json, c: FeedReader.Comic)
    requires j.JObj?
    ensures InjectFields(InjectFields(j, c).value, c) == InjectFields(j, c)
  {
    var d := j.fields;
    var d1 := Assign(d, "id", JStr(c.id));
    var d2 := Assign(d1, "published", JStr(c.published));
    var d3 := Assign(d2, "image_url", JStr(c.imgUrl));
    AssignPresentIsNoop(d3, "id", JStr(c.id));
    AssignPresentIsNoop(d3, "published", JStr(c.published));
    AssignPresentIsNoop(d3, "image_url", JStr(c.imgUrl));
  }

  /** Assigning a key the value it already holds leaves the dict as it was. */
  lemma {:induction false} AssignPresentIsNoop(d: seq<(string, Json)>, k: string, v: Json)
    requires Lookup(d, k) == Some(v)
    ensures Assign(d, k, v) == d
  {
    if d[0].0 != k {
      AssignPresentIsNoop(d[1..], k, v);
    }
  }

  /**
   Enrich one comic from the endpoint's reply. It succeeds exactly when the
   reply arrived, is one fenced block, decodes, and decodes to an object; the
   record is then the decoded object with `id`, `published` and `image_url`
   stamped from the comic and every other key as the model sent it. Each
   failure is reported as the step that raised.
   */
  function Enrich(reply: Reply, decode: Decoder, c: FeedReader.Comic): (r: Result<Json, EnrichError>)
    ensures r.Success? <==>
              reply.Answer? && Fence.FencedBody(reply.text).Some? &&
              decode(Fence.FencedBody(reply.text).value).Some? &&
              decode(Fence.FencedBody(reply.text).value).value.JObj?
    ensures reply.TransportError? ==> r == Failure(Transport)
    ensures r.Success? ==> IdOf(r.value) == Some(c.id)
    ensures r.Success? ==>
              var decoded := decode(Fence.FencedBody(reply.text).value).value;
              && r.value.JObj?
              && Lookup(r.value.fields, "id") == Some(JStr(c.id))
              && Lookup(r.value.fields, "published") == Some(JStr(c.published))
              && Lookup(r.value.fields, "image_url") == Some(JStr(c.imgUrl))
              && forall k :: k !in InjectedKeys ==> Lookup(r.value.fields, k) == Lookup(decoded.fields, k)
    ensures reply.Answer? && Fence.FencedBody(reply.text).None? ==> r == Failure(NoFencedBlock)
    ensures reply.Answer? && Fence.FencedBody(reply.text).Some? ==>
              var d := decode(Fence.FencedBody(reply.text).value);
              (d.None? ==> r == Failure(Undecodable)) && (d.Some? && !d.value.JObj? ==> r == Failure(NotAnObject))
    ensures r.Success? ==> exists body :: Fence.Wraps(reply.text, body) && decode(body).Some?
  {
    match reply
    case TransportError => Failure(Transport)
    case Answer(text) =>
      match Fence.FencedBody(text)
      case None => Failure(NoFencedBlock)
      case Some(body) =>
        match decode(body)
        case None => Failure(Undecodable)
        case Some(j) => InjectFields(j, c)
  }
}
