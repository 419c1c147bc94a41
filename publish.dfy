// publishToInstagram: upload every image to the public host, create one
// carousel item per hosted URL, create the carousel, then poll the publish
// endpoint a bounded number of times.  Every collaborator is abstracted: the
// host's and the Graph API's replies are inputs indexed by call number, and
// the run records the calls made, in order.

module Publish {
  import opened JsString
  import opened Layout

  /** The publish endpoint is tried at most this many times. */
  const MaxAttempts: nat := 5
  /** `error.error_subcode` of a carousel that is not ready to publish yet. */
  const NotReadySubcode: int := 2207027

  /** A request made to a collaborator.  An upload records the arguments
      `uploadToPublicHost` is called with; the request it sends carries only
      the image and the upload preset, so the file name goes no further. */
  datatype Call =
    | Upload(fileName: string, image: Image)            // public host: the PNG (the name is not sent)
    | CreateItem(imageUrl: string)                      // Graph API: carousel item for a hosted URL
    | CreateCarousel(children: string, caption: string) // Graph API: carousel container
    | PublishCarousel(creationId: string)               // Graph API: media_publish

  /** The phase a call belongs to. */
  function Stage(c: Call): nat {
    match c
    case Upload(_, _) => 0
    case CreateItem(_) => 1
    case CreateCarousel(_, _) => 2
    case PublishCarousel(_) => 3
  }

  /** A reply of the publish endpoint: the `ok` flag and status of the HTTP
      response, the `id` of its body ("" when absent) and `error.error_subcode`. */
  datatype PublishReply = PublishReply(ok: bool, id: string, status: int, subcode: Option<int>)

  datatype PublishError =
    | HostNotConfigured         // CLOUDINARY_CLOUD_NAME or CLOUDINARY_UPLOAD_PRESET unset
    | UploadFailed(index: nat)  // the host's reply for this image had no `secure_url`
    | ItemFailed(index: nat)    // the carousel item for this URL got no `id`
    | CarouselFailed            // the carousel container got no `id`
    | PublishRejected(status: int)  // a publish reply that is neither success nor "not ready"
    | PublishExhausted          // every attempt answered "not ready"

  /** The calls made, in order, and the outcome. */
  datatype Run<T> = Run(calls: seq<Call>, result: Result<T, PublishError>)

  // ------------------------------------------------------------ helpers

  /** The file name computed for image `i` and passed to the upload: the
      cover first, then the numbered panels. */
  function FileName(i: nat): (name: string)
    ensures i == 0 <==> name == "cover.png"
    ensures i > 0 ==> |name| > 16 && name[..12] == "output_post_" && name[|name| - 4..] == ".png"
  {
    if i == 0 then "cover.png" else "output_post_" + Decimal(i) + ".png"
  }

  /** The replies of the first `n` calls to a collaborator. */
  function Replies(n: nat, reply: nat -> string): seq<string> {
    seq(n, i requires 0 <= i < n => reply(i))
  }

  /** The position of the first empty string, or the length when there is none. */
  function FirstEmpty(s: seq<string>): (k: nat)
    ensures k <= |s|
    ensures forall j :: 0 <= j < k ==> s[j] != ""
    ensures k < |s| ==> s[k] == ""
  {
    if s == [] || s[0] == "" then 0 else 1 + FirstEmpty(s[1..])
  }

  function UploadCalls(images: seq<Image>): seq<Call> {
    seq(|images|, i requires 0 <= i < |images| => Upload(FileName(i), images[i]))
  }

  function ItemCalls(urls: seq<string>): seq<Call> {
    seq(|urls|, i requires 0 <= i < |urls| => CreateItem(urls[i]))
  }

  // ------------------------------------------------------------ uploads

  /** The upload phase: the host settings are checked on the first upload,
      then each image is sent in turn until one gets no URL back. */
  function Uploads(images: seq<Image>, configured: bool, host: nat -> string): Run<seq<string>> {
    if images != [] && !configured then Run([], Err(HostNotConfigured))
    else
      var urls := Replies(|images|, host);
      var k := FirstEmpty(urls);
      if k < |urls| then Run(UploadCalls(images)[..k + 1], Err(UploadFailed(k)))
      else Run(UploadCalls(images), Ok(urls))
  }

  method UploadAll(images: seq<Image>, configured: bool, host: nat -> string)
    returns (calls: seq<Call>, result: Result<seq<string>, PublishError>)
    ensures Run(calls, result) == Uploads(images, configured, host)
  {
    calls := [];
    var urls: seq<string> := [];
    var i := 0;
    while i < |images|
      invariant i <= |images|
      invariant calls == UploadCalls(images)[..i]
      invariant urls == Replies(i, host)
      invariant forall j :: 0 <= j < i ==> host(j) != ""
      invariant i > 0 ==> configured
    {
      if !configured {
        return calls, Err(HostNotConfigured);
      }
      var url := host(i);
      calls := calls + [Upload(FileName(i), images[i])];
      assert calls == UploadCalls(images)[..i + 1];
      if url == "" {
        assert Replies(|images|, host)[i] == "";
        return calls, Err(UploadFailed(i));
      }
      urls := urls + [url];
      assert urls == Replies(i + 1, host);
      i := i + 1;
    }
    assert calls == UploadCalls(images);
    assert urls == Replies(|images|, host);
    return calls, Ok(urls);
  }

  // ------------------------------------------------------------ carousel items

  /** One carousel item per hosted URL, in order, until one gets no `id`. */
  function Items(urls: seq<string>, item: nat -> string): Run<seq<string>> {
    var ids := Replies(|urls|, item);
    var k := FirstEmpty(ids);
    if k < |ids| then Run(ItemCalls(urls)[..k + 1], Err(ItemFailed(k)))
    else Run(ItemCalls(urls), Ok(ids))
  }

  method CreateItems(urls: seq<string>, item: nat -> string)
    returns (calls: seq<Call>, result: Result<seq<string>, PublishError>)
    ensures Run(calls, result) == Items(urls, item)
  {
    calls := [];
    var ids: seq<string> := [];
    var i := 0;
    while i < |urls|
      invariant i <= |urls|
      invariant calls == ItemCalls(urls)[..i]
      invariant ids == Replies(i, item)
      invariant forall j :: 0 <= j < i ==> item(j) != ""
    {
      var id := item(i);
      calls := calls + [CreateItem(urls[i])];
      assert calls == ItemCalls(urls)[..i + 1];
      if id == "" {
        assert Replies(|urls|, item)[i] == "";
        return calls, Err(ItemFailed(i));
      }
      ids := ids + [id];
      assert ids == Replies(i + 1, item);
      i := i + 1;
    }
    assert calls == ItemCalls(urls);
    assert ids == Replies(|urls|, item);
    return calls, Ok(ids);
  }

  // ------------------------------------------------------------ carousel

  /** The carousel container lists the item ids joined with commas. */
  function Carousel(ids: seq<string>, caption: string, carouselId: string): (r: Run<string>)
    ensures |r.calls| == 1 && r.calls[0].CreateCarousel? && r.calls[0].caption == caption
    ensures r.result.Ok? <==> carouselId != ""
    ensures r.result.Ok? ==> r.result.value == carouselId
    ensures r.result.Err? ==> r.result.error == CarouselFailed
    ensures ids != [] && (forall i :: 0 <= i < |ids| ==> ',' !in ids[i]) ==> Split(r.calls[0].children, ",") == ids
  {
    var r := Run([CreateCarousel(Join(ids, ","), caption)], if carouselId == "" then Err(CarouselFailed) else Ok(carouselId));
    if ids != [] && (forall i :: 0 <= i < |ids| ==> ',' !in ids[i]) then
      ChildrenSplit(ids);
      r
    else r
  }

  /** The `children` value gives the item ids back, in order, when split on
      commas (ids are numeric strings and never contain one). */
  lemma ChildrenSplit(ids: seq<string>)
    requires ids != []
    requires forall i :: 0 <= i < |ids| ==> ',' !in ids[i]
    ensures Split(Join(ids, ","), ",") == ids
  {
    forall i | 0 <= i < |ids| ensures Separable(ids[i], [',']) {
      SeparableByChar(ids[i], ',');
    }
    SplitJoin(ids, ",");
  }

  // ------------------------------------------------------------ publishing

  /** The carousel was published: an `ok` response carrying an `id`. */
  predicate Published(r: PublishReply) {
    r.ok && r.id != ""
  }

  /** The carousel is not ready yet: the one failure that is retried. */
  predicate NotReady(r: PublishReply) {
    !Published(r) && r.subcode == Some(NotReadySubcode)
  }

  /** The poll from attempt `attempt` (counted from 0) on. */
  function PollFrom(creationId: string, poll: nat -> PublishReply, attempt: nat): Run<string>
    decreases MaxAttempts - attempt
  {
    if attempt >= MaxAttempts then Run([], Err(PublishExhausted))
    else
      var reply := poll(attempt);
      if Published(reply) then Run([PublishCarousel(creationId)], Ok(reply.id))
      else if reply.subcode == Some(NotReadySubcode) then
        var rest := PollFrom(creationId, poll, attempt + 1);
        Run([PublishCarousel(creationId)] + rest.calls, rest.result)
      else Run([PublishCarousel(creationId)], Err(PublishRejected(reply.status)))
  }

  method PollPublish(creationId: string, poll: nat -> PublishReply)
    returns (calls: seq<Call>, result: Result<string, PublishError>)
    ensures Run(calls, result) == PollFrom(creationId, poll, 0)
  {
    calls := [];
    var attempts := 0;
    while attempts < MaxAttempts
      invariant attempts <= MaxAttempts
      invariant PollFrom(creationId, poll, 0)
        == Run(calls + PollFrom(creationId, poll, attempts).calls, PollFrom(creationId, poll, attempts).result)
    {
      attempts := attempts + 1;
      var reply := poll(attempts - 1);
      calls := calls + [PublishCarousel(creationId)];
      if Published(reply) {
        return calls, Ok(reply.id);
      }
      if reply.subcode != Some(NotReadySubcode) {
        return calls, Err(PublishRejected(reply.status));
      }
    }
    assert calls + [] == calls;
    return calls, Err(PublishExhausted);
  }

  /** The first attempt from `a` on whose reply is not "not ready", or
      MaxAttempts when there is none. */
  function Decisive(poll: nat -> PublishReply, a: nat): (k: nat)
    requires a <= MaxAttempts
    ensures a <= k <= MaxAttempts
    ensures forall b :: a <= b < k ==> NotReady(poll(b))
    ensures k < MaxAttempts ==> !NotReady(poll(k))
    decreases MaxAttempts - a
  {
    if a == MaxAttempts || !NotReady(poll(a)) then a else Decisive(poll, a + 1)
  }

  /** The poll makes one call per attempt up to and including the decisive
      one, and its outcome is that reply's: published, or rejected; with no
      decisive reply all MaxAttempts attempts are made and it is exhausted. */
  lemma {:induction false} PollOutcome(creationId: string, poll: nat -> PublishReply, a: nat)
    requires a <= MaxAttempts
    ensures var r := PollFrom(creationId, poll, a);
      var k := Decisive(poll, a);
      && |r.calls| == (if k < MaxAttempts then k + 1 else MaxAttempts) - a
      && (forall c :: c in r.calls ==> c == PublishCarousel(creationId))
      && r.result == (if k == MaxAttempts then Err(PublishExhausted)
                      else if Published(poll(k)) then Ok(poll(k).id)
                      else Err(PublishRejected(poll(k).status)))
    decreases MaxAttempts - a
  {
    if a < MaxAttempts && NotReady(poll(a)) {
      PollOutcome(creationId, poll, a + 1);
    }
  }

  /** At most MaxAttempts publish calls, and at least one. */
  lemma PollBounded(creationId: string, poll: nat -> PublishReply)
    ensures 1 <= |PollFrom(creationId, poll, 0).calls| <= MaxAttempts
  {
    PollOutcome(creationId, poll, 0);
  }

  /** The poll returns an id exactly when some reply is a success and every
      reply before it was "not ready"; the id is that reply's. */
  lemma PollSucceedsIff(creationId: string, poll: nat -> PublishReply)
    ensures PollFrom(creationId, poll, 0).result.Ok? <==>
      exists a :: 0 <= a < MaxAttempts && Published(poll(a)) && forall b :: 0 <= b < a ==> NotReady(poll(b))
    ensures forall a :: 0 <= a < MaxAttempts && Published(poll(a)) && (forall b :: 0 <= b < a ==> NotReady(poll(b))) ==>
                PollFrom(creationId, poll, 0).result == Ok(poll(a).id)
  {
    PollOutcome(creationId, poll, 0);
    var k := Decisive(poll, 0);
    forall a | 0 <= a < MaxAttempts && Published(poll(a)) && (forall b :: 0 <= b < a ==> NotReady(poll(b)))
      ensures a == k
    {
    }
  }

  /** Any failure other than "not ready" ends the poll on the spot. */
  lemma PollStopsOnFatal(creationId: string, poll: nat -> PublishReply, a: nat)
    requires a < MaxAttempts && !Published(poll(a)) && !NotReady(poll(a))
    requires forall b :: 0 <= b < a ==> NotReady(poll(b))
    ensures PollFrom(creationId, poll, 0) == Run(seq(a + 1, _ => PublishCarousel(creationId)), Err(PublishRejected(poll(a).status)))
  {
    PollOutcome(creationId, poll, 0);
    var r := PollFrom(creationId, poll, 0);
    assert Decisive(poll, 0) == a;
    assert r.calls == seq(a + 1, _ => PublishCarousel(creationId)) by {
      forall i | 0 <= i < |r.calls| ensures r.calls[i] == PublishCarousel(creationId) {
        assert r.calls[i] in r.calls;
      }
    }
  }

  /** Only MaxAttempts consecutive "not ready" replies exhaust the poll. */
  lemma PollExhaustedIff(creationId: string, poll: nat -> PublishReply)
    ensures PollFrom(creationId, poll, 0).result == Err(PublishExhausted) <==>
      forall a :: 0 <= a < MaxAttempts ==> NotReady(poll(a))
  {
    PollOutcome(creationId, poll, 0);
  }

  // ------------------------------------------------------------ the whole sequence

  /** publishToInstagram as a function of the collaborators' replies. */
  function Publication(images: seq<Image>, caption: string, configured: bool, host: nat -> string,
                       item: nat -> string, carouselId: string, poll: nat -> PublishReply): Run<string>
  {
    var up := Uploads(images, configured, host);
    if up.result.Err? then Run(up.calls, Err(up.result.error))
    else
      var it := Items(up.result.value, item);
      if it.result.Err? then Run(up.calls + it.calls, Err(it.result.error))
      else
        var ca := Carousel(it.result.value, caption, carouselId);
        if ca.result.Err? then Run(up.calls + it.calls + ca.calls, Err(ca.result.error))
        else
          var po := PollFrom(ca.result.value, poll, 0);
          Run(up.calls + it.calls + ca.calls + po.calls, po.result)
  }

  method PublishToInstagram(images: seq<Image>, caption: string, configured: bool, host: nat -> string,
                            item: nat -> string, carouselId: string, poll: nat -> PublishReply)
    returns (calls: seq<Call>, result: Result<string, PublishError>)
    ensures Run(calls, result) == Publication(images, caption, configured, host, item, carouselId, poll)
  {
    var uploadCalls, uploaded := UploadAll(images, configured, host);
    if uploaded.Err? {
      return uploadCalls, Err(uploaded.error);
    }
    var itemCalls, created := CreateItems(uploaded.value, item);
    calls := uploadCalls + itemCalls;
    if created.Err? {
      return calls, Err(created.error);
    }
    calls := calls + [CreateCarousel(Join(created.value, ","), caption)];
    if carouselId == "" {
      return calls, Err(CarouselFailed);
    }
    var pollCalls, published := PollPublish(carouselId, poll);
    return calls + pollCalls, published;
  }

  /** The calls go upload, items, carousel, publish, never back. */
  predicate InPhaseOrder(calls: seq<Call>) {
    forall i, j :: 0 <= i < j < |calls| ==> Stage(calls[i]) <= Stage(calls[j])
  }

  predicate AllAtStage(calls: seq<Call>, s: nat) {
    forall i :: 0 <= i < |calls| ==> Stage(calls[i]) == s
  }

  /** Calls of the four phases, concatenated in order, are in phase order,
      and so is every prefix of phases. */
  lemma StagesInOrder(a: seq<Call>, b: seq<Call>, c: seq<Call>, d: seq<Call>)
    requires AllAtStage(a, 0) && AllAtStage(b, 1) && AllAtStage(c, 2) && AllAtStage(d, 3)
    ensures InPhaseOrder(a + b) && InPhaseOrder(a + b + c) && InPhaseOrder(a + b + c + d)
  {
  }

  lemma UploadStage(images: seq<Image>, configured: bool, host: nat -> string)
    ensures var c := Uploads(images, configured, host).calls; AllAtStage(c, 0) && InPhaseOrder(c)
  {
  }

  lemma ItemStage(urls: seq<string>, item: nat -> string)
    ensures AllAtStage(Items(urls, item).calls, 1)
  {
  }

  lemma PollStage(creationId: string, poll: nat -> PublishReply)
    ensures AllAtStage(PollFrom(creationId, poll, 0).calls, 3)
  {
    var c := PollFrom(creationId, poll, 0).calls;
    PollOutcome(creationId, poll, 0);
    forall i | 0 <= i < |c| ensures Stage(c[i]) == 3 {
      assert c[i] in c;
    }
  }

  lemma PhaseOrder(images: seq<Image>, caption: string, configured: bool, host: nat -> string,
                   item: nat -> string, carouselId: string, poll: nat -> PublishReply)
    ensures InPhaseOrder(Publication(images, caption, configured, host, item, carouselId, poll).calls)
  {
    var up := Uploads(images, configured, host);
    UploadStage(images, configured, host);
    if up.result.Ok? {
      var it := Items(up.result.value, item);
      ItemStage(up.result.value, item);
      if it.result.Ok? {
        var ca := Carousel(it.result.value, caption, carouselId);
        PollStage(carouselId, poll);
        StagesInOrder(up.calls, it.calls, ca.calls, PollFrom(carouselId, poll, 0).calls);
      } else {
        StagesInOrder(up.calls, it.calls, [], []);
      }
    }
  }

  /** The upload phase gets through exactly when the host is configured (or
      there is nothing to upload) and every image gets a URL back. */
  lemma UploadsSucceed(images: seq<Image>, configured: bool, host: nat -> string)
    ensures var up := Uploads(images, configured, host);
      && (up.result.Ok? <==> (images == [] || configured) && forall i :: 0 <= i < |images| ==> host(i) != "")
      && (up.result.Ok? ==> up.calls == UploadCalls(images) && up.result.value == Replies(|images|, host))
  {
    var urls := Replies(|images|, host);
    if exists i :: 0 <= i < |images| && host(i) == "" {
      var i :| 0 <= i < |images| && host(i) == "";
      assert urls[i] == "";
    }
  }

  /** The item phase gets through exactly when every item gets an id. */
  lemma ItemsSucceed(urls: seq<string>, item: nat -> string)
    ensures var it := Items(urls, item);
      && (it.result.Ok? <==> forall i :: 0 <= i < |urls| ==> item(i) != "")
      && (it.result.Ok? ==> it.calls == ItemCalls(urls) && it.result.value == Replies(|urls|, item))
  {
    var ids := Replies(|urls|, item);
    if exists i :: 0 <= i < |urls| && item(i) == "" {
      var i :| 0 <= i < |urls| && item(i) == "";
      assert ids[i] == "";
    }
  }

  /** A run gets through exactly when every phase does and the poll returns an id. */
  lemma PublishSucceedsIff(images: seq<Image>, caption: string, configured: bool, host: nat -> string,
                           item: nat -> string, carouselId: string, poll: nat -> PublishReply)
    ensures Publication(images, caption, configured, host, item, carouselId, poll).result.Ok? <==>
      && (images == [] || configured)
      && (forall i :: 0 <= i < |images| ==> host(i) != "" && item(i) != "")
      && carouselId != ""
      && PollFrom(carouselId, poll, 0).result.Ok?
  {
    UploadsSucceed(images, configured, host);
    ItemsSucceed(Replies(|images|, host), item);
  }

  /** In a run that gets through, every image was uploaded, in order, with
      the file name computed for it; the i-th carousel item was created from the URL the
      i-th upload got; the carousel lists the item ids in that order; and the
      poll came last, deciding the result. */
  lemma PublishedShape(images: seq<Image>, caption: string, configured: bool, host: nat -> string,
                       item: nat -> string, carouselId: string, poll: nat -> PublishReply)
    requires Publication(images, caption, configured, host, item, carouselId, poll).result.Ok?
    ensures var r := Publication(images, caption, configured, host, item, carouselId, poll);
      var po := PollFrom(carouselId, poll, 0);
      && r.calls == UploadCalls(images) + ItemCalls(Replies(|images|, host))
                    + [CreateCarousel(Join(Replies(|images|, item), ","), caption)] + po.calls
      && r.result == po.result
  {
    UploadsSucceed(images, configured, host);
    ItemsSucceed(Replies(|images|, host), item);
  }

  /** A failed upload, item or carousel is the last call made. */
  lemma AbortIsLastCall(images: seq<Image>, caption: string, configured: bool, host: nat -> string,
                        item: nat -> string, carouselId: string, poll: nat -> PublishReply)
    ensures var r := Publication(images, caption, configured, host, item, carouselId, poll);
      && (r.result == Err(HostNotConfigured) <==> images != [] && !configured)
      && (r.result == Err(HostNotConfigured) ==> r.calls == [])
      && (forall k: nat :: r.result == Err(UploadFailed(k)) ==>
            k < |images| && host(k) == "" && r.calls == UploadCalls(images)[..k + 1])
      && (forall k: nat :: r.result == Err(ItemFailed(k)) ==>
            k < |images| && item(k) == "" && r.calls == UploadCalls(images) + ItemCalls(Replies(|images|, host))[..k + 1])
      && (r.result == Err(CarouselFailed) ==>
            carouselId == "" && |r.calls| == 2 * |images| + 1 && r.calls[2 * |images|].CreateCarousel?)
  {
    var r := Publication(images, caption, configured, host, item, carouselId, poll);
    var up := Uploads(images, configured, host);
    if up.result.Ok? {
      var it := Items(up.result.value, item);
      if it.result.Ok? && carouselId != "" {
        var po := PollFrom(carouselId, poll, 0);
        PollOutcome(carouselId, poll, 0);
        assert r.result == po.result;
      }
    }
  }

  /** Distinct images are given distinct file names.  The names are passed to
      the upload but not sent to the host, so this is a fact about the naming
      only. */
  lemma FileNamesDistinct(i: nat, j: nat)
    requires i != j
    ensures FileName(i) != FileName(j)
  {
    if i == 0 {
      assert FileName(j)[0] == 'o';
    } else if j == 0 {
      assert FileName(i)[0] == 'o';
    } else {
      DecimalRoundTrip(i);
      DecimalRoundTrip(j);
      var a, b := FileName(i), FileName(j);
      assert a[12..|a| - 4] == Decimal(i);
      assert b[12..|b| - 4] == Decimal(j);
    }
  }
}
