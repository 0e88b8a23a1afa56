/**
 * The record-assembly rule of `simpleExample` (src/main.ts:182-228): each
 * fetch result, together with the parsed replies of the two enrichment calls,
 * either becomes one `noticia` appended to `noticias_ok` or contributes nothing.
 */
module Aggregator {
  import opened Wrappers
  import opened DatePattern
  import opened DateNormalizer

  /** A value `JSON.parse` can return. */
  datatype Json =
    | JNull
    | JBool(b: bool)
    | JNumber(n: real)
    | JString(s: string)
    | JArray(items: seq<Json>)
    | JObject(props: map<string, Json>)

  /** JavaScript truthiness of a parsed value: false, 0, "" and null are falsy; arrays and objects are truthy. */
  predicate Truthy(v: Json)
  {
    match v
    case JNull => false
    case JBool(b) => b
    case JNumber(n) => n != 0.0
    case JString(s) => s != ""
    case JArray(_) => true
    case JObject(_) => true
  }

  /**
   * Property access `v.key` for the keys the callback reads, `erro` and
   * `resumo`: no prototype of a parsed value carries them, so only an object's
   * own key yields a value; anything else yields `undefined` (None).
   */
  function Get(v: Json, key: string): (r: Option<Json>)
    requires key == "erro" || key == "resumo"
    ensures r.Some? <==> v.JObject? && key in v.props
    ensures r.Some? ==> r.value == v.props[key]
  {
    match v
    case JObject(props) => if key in props then Some(props[key]) else None
    case _ => None
  }

  /** `v.key` is truthy. */
  predicate HasTruthy(v: Json, key: string)
    requires key == "erro" || key == "resumo"
  {
    Get(v, key).Some? && Truthy(Get(v, key).value)
  }

  /** JavaScript truthiness of a `string | null` field: present and non-empty. */
  predicate Present(s: Option<string>)
  {
    s.Some? && s.value != ""
  }

  /** The object `buscarCampos` resolves to; None stands for `null` or an absent field. */
  datatype FetchResult = FetchResult(
    id: int,
    title: Option<string>,
    date: Option<string>,
    body: Option<string>,
    imagesLinks: Option<seq<string>>,
    error: Option<string>)

  /** The result of `buscarCampos`' catch branch: every field null, the exception's message in `error`. */
  function CaughtFetch(id: int, message: string): (r: FetchResult)
    ensures r.id == id && r.error == Some(message)
    ensures r.title.None? && r.date.None? && r.body.None? && r.imagesLinks.None?
  {
    FetchResult(id, None, None, None, None, Some(message))
  }

  /** Which reply `JSON.parse` was reading. */
  datatype Call = TagsCall | SummaryCall

  /**
   * `JSON.parse(reply.choices[0].message.content)` of one enrichment reply:
   * the parsed value, or the reason the expression threw (no `choices`, or
   * content that is not JSON).
   */
  datatype Enrichment = Failed(reason: string) | Parsed(payload: Json)

  /** One element of `resultados` with the outcomes of its two enrichment calls. */
  datatype Item = Item(fetch: FetchResult, tags: Enrichment, summary: Enrichment)

  /** The `noticia` interface; `resumo` and `tags` hold whatever value the code assigns. */
  datatype Noticia = Noticia(
    titulo: string,
    resumo: Option<Json>,
    conteudo: string,
    dataPublicacao: int,
    localId: Option<int>,
    tags: Option<Json>,
    imagens: Option<seq<string>>)

  /** What the callback throws. */
  datatype Exception =
    | ParseError(call: Call, reason: string)   // JSON.parse or the `.choices[0]` access
    | DateFailure(error: DateError)            // thrown by transformarData
    | TimestampEmpty                           // "TimeStamp veio vazio"

  /** How one run of the `forEach` callback ends. */
  datatype Outcome =
    | LoggedFetchError(message: string)   // "ID …: ERRO - …"
    | MissingFields                       // return: body, date or title falsy
    | Raised(exception: Exception)
    | MissingPayload                      // "Tags ou Resumo não existe"
    | PayloadError(logged: Json)          // logs `tags.erro || resumo.erro`
    | Pushed(noticia: Noticia)

  /** `if (error)`. */
  predicate FetchFailed(f: FetchResult)
  {
    Present(f.error)
  }

  /** `body`, `date` and `title` are all truthy. */
  predicate FieldsPresent(f: FetchResult)
  {
    Present(f.body) && Present(f.date) && Present(f.title)
  }

  /** Both replies parsed. */
  predicate BothParsed(item: Item)
  {
    item.tags.Parsed? && item.summary.Parsed?
  }

  /** Both parsed payloads are truthy. */
  predicate PayloadsTruthy(item: Item)
    requires BothParsed(item)
  {
    Truthy(item.tags.payload) && Truthy(item.summary.payload)
  }

  /** Neither payload carries a truthy `erro`. */
  predicate PayloadsClean(item: Item)
    requires BothParsed(item)
  {
    !HasTruthy(item.tags.payload, "erro") && !HasTruthy(item.summary.payload, "erro")
  }

  /** Every check before `transformarData` passes. */
  predicate ReachesDate(item: Item)
  {
    !FetchFailed(item.fetch) && FieldsPresent(item.fetch) && BothParsed(item)
      && PayloadsTruthy(item) && PayloadsClean(item)
  }

  /** `transformarData(date.toString())` on a host tz minutes ahead of UTC. */
  function Stamp(item: Item, tz: int): Result<TimeValue, DateError>
    requires Present(item.fetch.date)
  {
    TransformarData(item.fetch.date.value, tz)
  }

  /** `!timeStap`: 0 and NaN are falsy. */
  predicate StampFalsy(t: TimeValue)
  {
    t.NotANumber? || t.seconds == 0
  }

  /** The item yields a record: every check passes and the timestamp is truthy. */
  predicate Keeps(item: Item, tz: int)
  {
    ReachesDate(item) && Stamp(item, tz).Success? && !StampFalsy(Stamp(item, tz).value)
  }

  /** The record built from a kept item. */
  function RecordOf(item: Item, tz: int): (r: Noticia)
    requires Keeps(item, tz)
    ensures r.titulo == item.fetch.title.value && r.conteudo == item.fetch.body.value
    ensures r.imagens == item.fetch.imagesLinks
    ensures r.resumo == Get(item.summary.payload, "resumo")
    ensures r.tags == Some(item.tags.payload)
    ensures r.localId.None?
    ensures Stamp(item, tz) == Success(Epoch(r.dataPublicacao))
  {
    Noticia(
      titulo := item.fetch.title.value,
      resumo := Get(item.summary.payload, "resumo"),
      conteudo := item.fetch.body.value,
      dataPublicacao := Stamp(item, tz).value.seconds,
      localId := None,
      tags := Some(item.tags.payload),
      imagens := item.fetch.imagesLinks)
  }

  /** What every record in `noticias_ok` satisfies. */
  predicate WellFormedNoticia(r: Noticia)
  {
    r.titulo != "" && r.conteudo != "" && r.localId.None? && r.dataPublicacao != 0
      && r.tags.Some? && Truthy(r.tags.value) && !HasTruthy(r.tags.value, "erro")
  }

  /** The records of the items that are kept, in order: the contents of `noticias_ok` after the loop. */
  function KeptRecords(items: seq<Item>, tz: int): seq<Noticia>
  {
    if items == [] then []
    else
      var last := items[|items| - 1];
      KeptRecords(items[..|items| - 1], tz) + (if Keeps(last, tz) then [RecordOf(last, tz)] else [])
  }

  /** The results whose fetch did not fail. */
  function ErrorFree(items: seq<Item>): seq<Item>
  {
    if items == [] then []
    else
      var last := items[|items| - 1];
      ErrorFree(items[..|items| - 1]) + (if FetchFailed(last.fetch) then [] else [last])
  }

  /**
   * What the outcome of one callback says about its result: a record exactly
   * for a kept item, and a logged fetch error exactly for a failed fetch.
   */
  predicate Accounts(o: Outcome, item: Item, tz: int)
  {
    (o.Pushed? <==> Keeps(item, tz))
      && (o.Pushed? ==> o.noticia == RecordOf(item, tz))
      && (o.LoggedFetchError? <==> FetchFailed(item.fetch))
      && (o.Raised? ==> !Keeps(item, tz) && !FetchFailed(item.fetch))
  }

  /**
   * The `forEach` callback on one result, its checks in source order, each
   * failing check ending the callback.
   */
  method Callback(item: Item, tz: int) returns (o: Outcome)
    ensures o.LoggedFetchError? <==> FetchFailed(item.fetch)
    ensures o.LoggedFetchError? ==> o.message == item.fetch.error.value
    ensures o == MissingFields <==> !FetchFailed(item.fetch) && !FieldsPresent(item.fetch)
    ensures (o.Raised? && o.exception.ParseError?)
      <==> !FetchFailed(item.fetch) && FieldsPresent(item.fetch) && !BothParsed(item)
    ensures o.Raised? && o.exception.ParseError? && item.tags.Failed?
      ==> o.exception == ParseError(TagsCall, item.tags.reason)
    ensures o.Raised? && o.exception.ParseError? && item.tags.Parsed?
      ==> o.exception == ParseError(SummaryCall, item.summary.reason)
    ensures o == MissingPayload
      <==> !FetchFailed(item.fetch) && FieldsPresent(item.fetch) && BothParsed(item) && !PayloadsTruthy(item)
    ensures o.PayloadError?
      <==> !FetchFailed(item.fetch) && FieldsPresent(item.fetch) && BothParsed(item)
           && PayloadsTruthy(item) && !PayloadsClean(item)
    ensures o.PayloadError? ==>
      o.logged == if HasTruthy(item.tags.payload, "erro") then Get(item.tags.payload, "erro").value
                  else Get(item.summary.payload, "erro").value
    ensures (o.Raised? && o.exception.DateFailure?) <==> ReachesDate(item) && Stamp(item, tz).Failure?
    ensures o.Raised? && o.exception.DateFailure? ==> o.exception.error == InvalidFormat
    ensures o == Raised(TimestampEmpty)
      <==> ReachesDate(item) && Stamp(item, tz).Success? && StampFalsy(Stamp(item, tz).value)
    ensures o.Pushed? <==> Keeps(item, tz)
    ensures o.Pushed? ==> o.noticia == RecordOf(item, tz)
  {
    var f := item.fetch;
    if Present(f.error) {
      o := LoggedFetchError(f.error.value);
      return;
    }
    if !Present(f.body) || !Present(f.date) || !Present(f.title) {
      o := MissingFields;
      return;
    }
    // the tags reply is parsed first
    if item.tags.Failed? {
      o := Raised(ParseError(TagsCall, item.tags.reason));
      return;
    }
    if item.summary.Failed? {
      o := Raised(ParseError(SummaryCall, item.summary.reason));
      return;
    }
    var tags, resumo := item.tags.payload, item.summary.payload;
    if !Truthy(tags) || !Truthy(resumo) {
      o := MissingPayload;
      return;
    }
    if HasTruthy(tags, "erro") {
      o := PayloadError(Get(tags, "erro").value);
      return;
    }
    if HasTruthy(resumo, "erro") {
      o := PayloadError(Get(resumo, "erro").value);
      return;
    }
    var timeStap := TransformarData(f.date.value, tz);
    if timeStap.Failure? {
      o := Raised(DateFailure(timeStap.error));
      return;
    }
    if StampFalsy(timeStap.value) {
      o := Raised(TimestampEmpty);
      return;
    }
    o := Pushed(Noticia(
      titulo := f.title.value,
      resumo := Get(resumo, "resumo"),
      conteudo := f.body.value,
      dataPublicacao := timeStap.value.seconds,
      localId := None,
      tags := Some(tags),
      imagens := f.imagesLinks));
  }

  /**
   * `resultados.forEach(callback)` run to completion, one result after the
   * other: the records pushed to `noticias_ok`, and how each callback ended.
   */
  method AssembleNoticias(items: seq<Item>, tz: int) returns (noticias: seq<Noticia>, outcomes: seq<Outcome>)
    ensures noticias == KeptRecords(items, tz)
    ensures forall k :: 0 <= k < |noticias| ==> WellFormedNoticia(noticias[k])
    ensures |outcomes| == |items|
    ensures forall i :: 0 <= i < |items| ==> Accounts(outcomes[i], items[i], tz)
  {
    noticias, outcomes := [], [];
    for i := 0 to |items|
      invariant noticias == KeptRecords(items[..i], tz)
      invariant forall k :: 0 <= k < |noticias| ==> WellFormedNoticia(noticias[k])
      invariant |outcomes| == i
      invariant forall j :: 0 <= j < i ==> Accounts(outcomes[j], items[j], tz)
    {
      var o := Callback(items[i], tz);
      KeptRecordsStep(items, i, tz);
      AccountsStep(outcomes, items, o, tz);
      if o.Pushed? {
        KeptIsWellFormed(noticias, items[i], tz);
        noticias := noticias + [o.noticia];
      }
      outcomes := outcomes + [o];
    }
    assert items[..|items|] == items;
  }

  /** One more result appends at most its own record. */
  lemma KeptRecordsStep(items: seq<Item>, i: nat, tz: int)
    requires i < |items|
    ensures KeptRecords(items[..i + 1], tz)
      == KeptRecords(items[..i], tz) + (if Keeps(items[i], tz) then [RecordOf(items[i], tz)] else [])
  {
    assert items[..i + 1][..i] == items[..i];
  }

  /** Appending the outcome of the next result keeps every outcome accounted for. */
  lemma AccountsStep(outcomes: seq<Outcome>, items: seq<Item>, o: Outcome, tz: int)
    requires |outcomes| < |items|
    requires forall j :: 0 <= j < |outcomes| ==> Accounts(outcomes[j], items[j], tz)
    requires Accounts(o, items[|outcomes|], tz)
    ensures forall j :: 0 <= j <= |outcomes| ==> Accounts((outcomes + [o])[j], items[j], tz)
  {
  }

  /** Pushing a kept item's record keeps every record of `noticias_ok` well formed. */
  lemma KeptIsWellFormed(noticias: seq<Noticia>, item: Item, tz: int)
    requires forall k :: 0 <= k < |noticias| ==> WellFormedNoticia(noticias[k])
    requires Keeps(item, tz)
    ensures forall k :: 0 <= k <= |noticias| ==> WellFormedNoticia((noticias + [RecordOf(item, tz)])[k])
  {
  }

  /** A single result yields its record exactly when it is kept. */
  lemma KeptRecordsSingle(item: Item, tz: int)
    ensures KeptRecords([item], tz) == if Keeps(item, tz) then [RecordOf(item, tz)] else []
  {
    assert [item][..0] == [];
  }

  /** The records are assembled in order: the results of a concatenation give the concatenation of their records. */
  lemma {:induction false} KeptRecordsAppend(a: seq<Item>, b: seq<Item>, tz: int)
    ensures KeptRecords(a + b, tz) == KeptRecords(a, tz) + KeptRecords(b, tz)
    decreases |b|
  {
    if b == [] {
      assert a + b == a;
    } else {
      var init := b[..|b| - 1];
      assert (a + b)[..|a + b| - 1] == a + init;
      KeptRecordsAppend(a, init, tz);
    }
  }

  /** Each result yields at most one record. */
  lemma {:induction false} KeptRecordsLength(items: seq<Item>, tz: int)
    ensures |KeptRecords(items, tz)| <= |items|
  {
    if items != [] {
      KeptRecordsLength(items[..|items| - 1], tz);
    }
  }

  /** Dropping the results whose fetch failed changes no record. */
  lemma {:induction false} KeptIgnoresFailedFetches(items: seq<Item>, tz: int)
    ensures KeptRecords(ErrorFree(items), tz) == KeptRecords(items, tz)
  {
    if items != [] {
      var init, last := items[..|items| - 1], items[|items| - 1];
      var tail := if FetchFailed(last.fetch) then [] else [last];
      KeptIgnoresFailedFetches(init, tz);
      KeptRecordsAppend(ErrorFree(init), tail, tz);
      if tail != [] {
        assert tail[..0] == [];
      }
    }
  }

  /** The results whose fetch did not fail are among the results, in order, and none of them failed. */
  lemma {:induction false} ErrorFreeSound(items: seq<Item>)
    ensures |ErrorFree(items)| <= |items|
    ensures forall x :: x in ErrorFree(items) ==> x in items && !FetchFailed(x.fetch)
  {
    if items != [] {
      ErrorFreeSound(items[..|items| - 1]);
      forall x | x in items[..|items| - 1]
        ensures x in items
      {
      }
    }
  }

  /** There are at most as many records as results whose fetch did not fail. */
  lemma AtMostErrorFree(items: seq<Item>, tz: int)
    ensures |KeptRecords(items, tz)| <= |ErrorFree(items)| <= |items|
  {
    KeptIgnoresFailedFetches(items, tz);
    KeptRecordsLength(ErrorFree(items), tz);
    ErrorFreeSound(items);
  }

  /** Every record is the record of a kept result, whose fetch therefore did not fail. */
  lemma {:induction false} KeptRecordsSource(items: seq<Item>, tz: int, k: nat)
    requires k < |KeptRecords(items, tz)|
    ensures exists i :: 0 <= i < |items| && Keeps(items[i], tz) && KeptRecords(items, tz)[k] == RecordOf(items[i], tz)
  {
    var init, last := items[..|items| - 1], items[|items| - 1];
    var tail := if Keeps(last, tz) then [RecordOf(last, tz)] else [];
    assert KeptRecords(items, tz) == KeptRecords(init, tz) + tail;
    if k < |KeptRecords(init, tz)| {
      KeptRecordsSource(init, tz, k);
      var i :| 0 <= i < |init| && Keeps(init[i], tz) && KeptRecords(init, tz)[k] == RecordOf(init[i], tz);
      assert items[i] == init[i];
    } else {
      assert KeptRecords(items, tz)[k] == tail[0] == RecordOf(last, tz);
    }
  }

  /** Every kept result's record is among the records. */
  lemma {:induction false} KeptRecordsComplete(items: seq<Item>, tz: int, i: nat)
    requires i < |items| && Keeps(items[i], tz)
    ensures RecordOf(items[i], tz) in KeptRecords(items, tz)
  {
    var init := items[..|items| - 1];
    if i < |init| {
      assert init[i] == items[i];
      KeptRecordsComplete(init, tz, i);
    }
  }

  /**
   * Under an offset of at most a day, an item is kept exactly when every
   * check before the date passes, its date text contains the pattern, and the
   * leftmost match does not denote the epoch; every timestamp is then a whole
   * number of minutes.
   */
  lemma KeepsByPattern(item: Item, tz: int)
    requires -1440 <= tz <= 1440
    ensures Keeps(item, tz) <==>
      ReachesDate(item) && Match(item.fetch.date.value).Some?
        && LocalSeconds(Match(item.fetch.date.value).value, tz) != 0
    ensures Keeps(item, tz) ==> RecordOf(item, tz).dataPublicacao == LocalSeconds(Match(item.fetch.date.value).value, tz)
    ensures Keeps(item, tz) ==> RecordOf(item, tz).dataPublicacao % 60 == 0
  {
    if ReachesDate(item) && Match(item.fetch.date.value).Some? {
      TransformarDataValue(item.fetch.date.value, tz);
    }
  }

  /** No record comes from the catch branch of `buscarCampos`, whatever the exception's message and the replies. */
  lemma CaughtFetchNeverKept(id: int, message: string, tags: Enrichment, summary: Enrichment, tz: int)
    ensures !Keeps(Item(CaughtFetch(id, message), tags, summary), tz)
    ensures FetchFailed(CaughtFetch(id, message)) <==> message != ""
    ensures !FieldsPresent(CaughtFetch(id, message))
  {
  }
}
