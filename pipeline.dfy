// generateAndPost: check the environment, have the model write a draft,
// parse it, compose the cover and six panels, find their backgrounds and
// publish the carousel.  Every collaborator is an input: the environment,
// the model's reply, the two font measures, the decodable backgrounds, the
// search replies and the publishing replies.

module Pipeline {
  import opened JsString
  import opened LineWrap
  import opened Layout
  import opened Search
  import opened Draft
  import opened Publish

  /** Checked in this order before anything else is done. */
  const RequiredEnvVars: seq<string> := [
    "PIXABAY_API", "GEMINI_API_KEY", "IG_USER_ID", "IG_ACCESS_TOKEN",
    "CLOUDINARY_CLOUD_NAME", "CLOUDINARY_UPLOAD_PRESET"]

  /** One background per panel, so this many search hits are needed. */
  const ImagesNeeded: nat := 6

  /** The process environment and the two files on disk the run needs. */
  datatype Environment = Environment(vars: map<string, string>, coverExists: bool, fontExists: bool)

  datatype SetupError =
    | MissingVariable(name: string)
    | CoverMissing
    | FontMissing

  datatype PipelineError =
    | Setup(setup: SetupError)
    | Generation(draft: DraftError)
    | ImageSearchFailed(search: SearchError)
    | NotEnoughImages(found: nat)
    | Composition(composition: CompositionError)
    | Publishing(publish: PublishError)

  /** What a successful run returns. */
  datatype Outcome = Outcome(title: string, imageWord: string, caption: string, hashtags: string, postId: string)

  /** The search requests made, the buffers composed and the publishing calls made. */
  datatype Trace = Trace(searches: seq<string>, buffers: seq<Image>, calls: seq<Call>)

  // ------------------------------------------------------------ environment

  /** `process.env[name]`; an unset variable reads as the empty string. */
  function EnvValue(env: Environment, name: string): string {
    if name in env.vars then env.vars[name] else ""
  }

  function RequiredValues(env: Environment): seq<string> {
    seq(|RequiredEnvVars|, i requires 0 <= i < |RequiredEnvVars| => EnvValue(env, RequiredEnvVars[i]))
  }

  /** The first failing check: variables in list order, then the cover image,
      then the font file. */
  function SetupCheck(env: Environment): Option<SetupError> {
    var k := FirstEmpty(RequiredValues(env));
    if k < |RequiredEnvVars| then Some(MissingVariable(RequiredEnvVars[k]))
    else if !env.coverExists then Some(CoverMissing)
    else if !env.fontExists then Some(FontMissing)
    else None
  }

  method CheckEnvironment(env: Environment) returns (r: Option<SetupError>)
    ensures r == SetupCheck(env)
  {
    for i := 0 to |RequiredEnvVars|
      invariant forall j :: 0 <= j < i ==> EnvValue(env, RequiredEnvVars[j]) != ""
    {
      if EnvValue(env, RequiredEnvVars[i]) == "" {
        assert RequiredValues(env)[i] == "";
        return Some(MissingVariable(RequiredEnvVars[i]));
      }
    }
    assert forall j :: 0 <= j < |RequiredEnvVars| ==> RequiredValues(env)[j] != "";
    if !env.coverExists {
      return Some(CoverMissing);
    }
    if !env.fontExists {
      return Some(FontMissing);
    }
    return None;
  }

  /** The checks pass exactly when every required variable is set and both files exist. */
  lemma SetupPasses(env: Environment)
    ensures SetupCheck(env) == None <==>
      (forall i :: 0 <= i < |RequiredEnvVars| ==> EnvValue(env, RequiredEnvVars[i]) != "")
      && env.coverExists && env.fontExists
  {
    if exists i :: 0 <= i < |RequiredEnvVars| && EnvValue(env, RequiredEnvVars[i]) == "" {
      var i :| 0 <= i < |RequiredEnvVars| && EnvValue(env, RequiredEnvVars[i]) == "";
      assert RequiredValues(env)[i] == "";
    }
  }

  /** A missing variable is reported only when it is unset and every variable
      before it in the list is set; the files are checked only after all of them. */
  lemma MissingIsFirst(env: Environment)
    ensures SetupCheck(env).Some? && SetupCheck(env).value.MissingVariable? ==>
      exists k :: 0 <= k < |RequiredEnvVars| && RequiredEnvVars[k] == SetupCheck(env).value.name
        && EnvValue(env, RequiredEnvVars[k]) == ""
        && forall j :: 0 <= j < k ==> EnvValue(env, RequiredEnvVars[j]) != ""
    ensures SetupCheck(env) in {Some(CoverMissing), Some(FontMissing)} ==>
      forall i :: 0 <= i < |RequiredEnvVars| ==> EnvValue(env, RequiredEnvVars[i]) != ""
  {
    var vs := RequiredValues(env);
    var k := FirstEmpty(vs);
    if k < |RequiredEnvVars| {
      assert vs[k] == EnvValue(env, RequiredEnvVars[k]);
      forall j | 0 <= j < k ensures EnvValue(env, RequiredEnvVars[j]) != "" {
        assert vs[j] == EnvValue(env, RequiredEnvVars[j]);
      }
    } else {
      forall i | 0 <= i < |RequiredEnvVars| ensures EnvValue(env, RequiredEnvVars[i]) != "" {
        assert vs[i] == EnvValue(env, RequiredEnvVars[i]);
      }
    }
  }

  // ------------------------------------------------------------ the run

  /** The model's reply parsed into a post. */
  function DraftOf(resp: GenResponse): (r: Result<Post, DraftError>)
    ensures r.Ok? ==> WellFormed(r.value)
  {
    match GenerateText(resp)
    case Err(e) => Err(e)
    case Ok(fullText) => ParseDraft(fullText)
  }

  /** Panels alternate: the band at the bottom on even panels, at the top on odd ones. */
  function PanelPosition(i: nat): (p: Position)
    ensures p == Bottom <==> i % 2 == 0
    ensures p == Top <==> i % 2 == 1
  {
    if i % 2 == 0 then Bottom else Top
  }

  /** Panel `i` shows background `urls[i]` with paragraph `i` of the post. */
  predicate PanelFor(img: Image, url: string, text: string, i: nat) {
    img.Panel? && img.background == url && img.text == text && img.position == PanelPosition(i)
  }

  /** The buffers handed to publishing: the cover with the title, then one
      panel per paragraph with its background and alternating band. */
  predicate Buffers(buffers: seq<Image>, d: Post, urls: seq<string>) {
    && |d.paragraphs| == ImagesNeeded && |urls| >= ImagesNeeded
    && |buffers| == ImagesNeeded + 1
    && buffers[0].Cover? && buffers[0].title == d.title
    && forall i :: 0 <= i < ImagesNeeded ==> PanelFor(buffers[i + 1], urls[i], d.paragraphs[i], i)
  }

  /** Panel `i` of the carousel: drawPostImage with the band the index calls for. */
  method DrawPanel(regular: Measure, backgrounds: map<string, Dims>, url: string, text: string, i: nat)
    returns (r: Result<Image, CompositionError>)
    ensures r.Err? <==> url !in backgrounds
    ensures r.Err? ==> r.error == BackgroundUnavailable(url)
    ensures r.Ok? ==> PanelFor(r.value, url, text, i)
  {
    r := DrawPostImage(regular, backgrounds, url, text, PanelPosition(i));
  }

  /** The cover of the carousel: drawCoverImage with the bold face. */
  method DrawCover(bold: Measure, title: string) returns (img: Image)
    ensures img.Cover? && img.title == title
  {
    img := DrawCoverImage(bold, title);
  }

  /** The six panels, in order: background `urls[i]`, paragraph `i`, bands
      alternating from the bottom; the first background that cannot be
      loaded stops the loop. */
  method DrawPanels(regular: Measure, backgrounds: map<string, Dims>, paragraphs: seq<string>, urls: seq<string>)
    returns (r: Result<seq<Image>, CompositionError>)
    requires |paragraphs| == ImagesNeeded && |urls| >= ImagesNeeded
    ensures r.Err? <==> exists i :: 0 <= i < ImagesNeeded && urls[i] !in backgrounds
    ensures r.Err? ==>
      exists i :: 0 <= i < ImagesNeeded && r.error == BackgroundUnavailable(urls[i])
        && urls[i] !in backgrounds && forall j :: 0 <= j < i ==> urls[j] in backgrounds
    ensures r.Ok? ==>
      |r.value| == ImagesNeeded && forall i :: 0 <= i < ImagesNeeded ==> PanelFor(r.value[i], urls[i], paragraphs[i], i)
  {
    var panels: seq<Image> := [];
    for i := 0 to ImagesNeeded
      invariant |panels| == i
      invariant forall j :: 0 <= j < i ==> PanelFor(panels[j], urls[j], paragraphs[j], j)
      invariant forall j :: 0 <= j < i ==> urls[j] in backgrounds
    {
      var panel := DrawPanel(regular, backgrounds, urls[i], paragraphs[i], i);
      if panel.Err? {
        return Err(panel.error);
      }
      PanelsExtend(panels, panel.value, paragraphs, urls, i);
      panels := panels + [panel.value];
    }
    return Ok(panels);
  }

  lemma PanelsExtend(panels: seq<Image>, panel: Image, paragraphs: seq<string>, urls: seq<string>, i: nat)
    requires |panels| == i < |paragraphs| && i < |urls|
    requires forall j :: 0 <= j < i ==> PanelFor(panels[j], urls[j], paragraphs[j], j)
    requires PanelFor(panel, urls[i], paragraphs[i], i)
    ensures forall j :: 0 <= j <= i ==> PanelFor((panels + [panel])[j], urls[j], paragraphs[j], j)
  {
  }

  /** generateAndPost: the checks, the draft, then the post. */
  method GenerateAndPost(env: Environment, resp: GenResponse, regular: Measure, bold: Measure,
                         backgrounds: map<string, Dims>, primary: Reply, pick: nat, fallback: Reply,
                         host: nat -> string, item: nat -> string, carouselId: string, poll: nat -> PublishReply)
    returns (trace: Trace, r: Result<Outcome, PipelineError>)
    requires pick < |FallbackTerms|
    ensures SetupCheck(env).Some? ==> trace == Trace([], [], []) && r == Err(Setup(SetupCheck(env).value))
    ensures SetupCheck(env).None? && DraftOf(resp).Err? ==>
      trace == Trace([], [], []) && r == Err(Generation(DraftOf(resp).error))
    ensures SetupCheck(env).None? && DraftOf(resp).Ok? ==>
      Posted(EnvValue(env, "PIXABAY_API"), true, DraftOf(resp).value, backgrounds, primary, pick, fallback,
             host, item, carouselId, poll, trace, r)
    ensures r.Ok? ==> SetupCheck(env).None? && DraftOf(resp).Ok?
  {
    trace := Trace([], [], []);
    var setup := CheckEnvironment(env);
    if setup.Some? {
      return trace, Err(Setup(setup.value));
    }
    SetupPasses(env);
    var draft := DraftOf(resp);
    if draft.Err? {
      return trace, Err(Generation(draft.error));
    }
    var configured := EnvValue(env, "CLOUDINARY_CLOUD_NAME") != "" && EnvValue(env, "CLOUDINARY_UPLOAD_PRESET") != "";
    assert RequiredEnvVars[4] == "CLOUDINARY_CLOUD_NAME" && RequiredEnvVars[5] == "CLOUDINARY_UPLOAD_PRESET";
    trace, r := PostDraft(EnvValue(env, "PIXABAY_API"), configured, draft.value, regular, bold, backgrounds,
                          primary, pick, fallback, host, item, carouselId, poll);
  }

  /** The first of the six backgrounds that cannot be loaded is `urls[i]`. */
  predicate FirstUnavailable(backgrounds: map<string, Dims>, urls: seq<string>, i: nat) {
    i < ImagesNeeded && i < |urls| && urls[i] !in backgrounds
    && forall j :: 0 <= j < i ==> urls[j] in backgrounds
  }

  /** Whether all six backgrounds can be loaded. */
  predicate AllAvailable(backgrounds: map<string, Dims>, urls: seq<string>)
    requires |urls| >= ImagesNeeded
  {
    forall i :: 0 <= i < ImagesNeeded ==> urls[i] in backgrounds
  }

  /** The outcome a run reports for a publication's result. */
  function Reported(d: Post, result: Result<string, PublishError>): (r: Result<Outcome, PipelineError>)
    ensures r.Ok? <==> result.Ok?
    ensures r.Ok? ==> r.value == Outcome(d.title, d.imageWord, d.caption, d.hashtags, result.value)
    ensures r.Err? ==> r.error == Publishing(result.error)
  {
    match result
    case Ok(id) => Ok(Outcome(d.title, d.imageWord, d.caption, d.hashtags, id))
    case Err(e) => Err(Publishing(e))
  }

  /** What composing and publishing a draft does once the search found six
      backgrounds or more: a background that cannot be loaded stops before
      any publishing call, reporting the first such URL; otherwise the cover
      and the six panels are published in order, and the run reports the
      publication's id with the draft's fields, or its error. */
  predicate Composed(configured: bool, d: Post, backgrounds: map<string, Dims>, urls: seq<string>,
                     host: nat -> string, item: nat -> string, carouselId: string, poll: nat -> PublishReply,
                     buffers: seq<Image>, calls: seq<Call>, r: Result<Outcome, PipelineError>)
    requires |urls| >= ImagesNeeded
  {
    if !AllAvailable(backgrounds, urls) then
      && calls == []
      && exists i :: 0 <= i < ImagesNeeded && FirstUnavailable(backgrounds, urls, i)
                     && r == Err(Composition(BackgroundUnavailable(urls[i])))
    else
      var published := Publication(buffers, PostCaption(d), configured, host, item, carouselId, poll);
      && Buffers(buffers, d, urls)
      && calls == published.calls
      && r == Reported(d, published.result)
  }

  /** What posting a draft does, given the search, background and publishing
      replies: the searches made are the image search's; a failed search or
      one with fewer than six hits stops before any publishing call, with
      that error; otherwise the run is `Composed`. */
  predicate Posted(key: string, configured: bool, d: Post, backgrounds: map<string, Dims>,
                   primary: Reply, pick: nat, fallback: Reply,
                   host: nat -> string, item: nat -> string, carouselId: string, poll: nat -> PublishReply,
                   trace: Trace, r: Result<Outcome, PipelineError>)
    requires pick < |FallbackTerms|
  {
    var search := ImageSearch(key, d.imageWord, ImagesNeeded, primary, pick, fallback);
    && trace.searches == search.requests
    && match search.result
       case Err(e) => r == Err(ImageSearchFailed(e)) && trace.calls == []
       case Ok(urls) =>
         if |urls| < ImagesNeeded then r == Err(NotEnoughImages(|urls|)) && trace.calls == []
         else Composed(configured, d, backgrounds, urls, host, item, carouselId, poll, trace.buffers, trace.calls, r)
  }

  /** The image search of a parsed draft, then its panels and publication. */
  method PostDraft(key: string, configured: bool, d: Post, regular: Measure, bold: Measure,
                   backgrounds: map<string, Dims>, primary: Reply, pick: nat, fallback: Reply,
                   host: nat -> string, item: nat -> string, carouselId: string, poll: nat -> PublishReply)
    returns (trace: Trace, r: Result<Outcome, PipelineError>)
    requires pick < |FallbackTerms| && |d.paragraphs| == ImagesNeeded
    ensures Posted(key, configured, d, backgrounds, primary, pick, fallback, host, item, carouselId, poll, trace, r)
  {
    var cover := DrawCover(bold, d.title);
    var search := ImageSearch(key, d.imageWord, ImagesNeeded, primary, pick, fallback);
    trace := Trace(search.requests, [cover], []);
    if search.result.Err? {
      return trace, Err(ImageSearchFailed(search.result.error));
    }
    var urls := search.result.value;
    if |urls| < ImagesNeeded {
      return trace, Err(NotEnoughImages(|urls|));
    }
    var buffers, calls;
    buffers, calls, r := ComposeAndPublish(configured, d, regular, backgrounds, urls, cover,
                                           host, item, carouselId, poll);
    trace := Trace(search.requests, buffers, calls);
  }

  /** The six panels after the cover, then the publication of all seven. */
  method ComposeAndPublish(configured: bool, d: Post, regular: Measure, backgrounds: map<string, Dims>,
                           urls: seq<string>, cover: Image,
                           host: nat -> string, item: nat -> string, carouselId: string, poll: nat -> PublishReply)
    returns (buffers: seq<Image>, calls: seq<Call>, r: Result<Outcome, PipelineError>)
    requires |d.paragraphs| == ImagesNeeded && |urls| >= ImagesNeeded
    requires cover.Cover? && cover.title == d.title
    ensures Composed(configured, d, backgrounds, urls, host, item, carouselId, poll, buffers, calls, r)
  {
    buffers := [cover];
    var panels := DrawPanels(regular, backgrounds, d.paragraphs, urls);
    if panels.Err? {
      var i :| 0 <= i < ImagesNeeded && panels.error == BackgroundUnavailable(urls[i])
        && urls[i] !in backgrounds && forall j :: 0 <= j < i ==> urls[j] in backgrounds;
      assert FirstUnavailable(backgrounds, urls, i);
      return buffers, [], Err(Composition(panels.error));
    }
    buffers := buffers + panels.value;
    var published;
    calls, published := PublishToInstagram(buffers, PostCaption(d), configured, host, item, carouselId, poll);
    r := Reported(d, published);
  }

  /** A post goes through exactly when the search finds six backgrounds that
      can all be loaded and the publication returns an id. */
  lemma PostedSucceedsIff(key: string, configured: bool, d: Post, backgrounds: map<string, Dims>,
                          primary: Reply, pick: nat, fallback: Reply,
                          host: nat -> string, item: nat -> string, carouselId: string, poll: nat -> PublishReply,
                          trace: Trace, r: Result<Outcome, PipelineError>)
    requires pick < |FallbackTerms|
    requires Posted(key, configured, d, backgrounds, primary, pick, fallback, host, item, carouselId, poll, trace, r)
    ensures var search := ImageSearch(key, d.imageWord, ImagesNeeded, primary, pick, fallback);
      r.Ok? <==>
        && search.result.Ok? && |search.result.value| >= ImagesNeeded
        && AllAvailable(backgrounds, search.result.value)
        && Publication(trace.buffers, PostCaption(d), configured, host, item, carouselId, poll).result.Ok?
  {
  }

  /** One to five hits need no fallback, are returned as they are, and so end
      the run with the "need 6" error. */
  lemma FewHitsFail(key: string, query: string, primary: Reply, pick: nat, fallback: Reply)
    requires pick < |FallbackTerms|
    requires key != "" && primary.Answered? && primary.ok && primary.hits.Some?
    requires 1 <= |primary.hits.value| < ImagesNeeded
    ensures var run := ImageSearch(key, query, ImagesNeeded, primary, pick, fallback);
      && |run.requests| == 1
      && run.result.Ok? && |run.result.value| < ImagesNeeded
  {
    HitsPassThrough(key, query, ImagesNeeded, primary, pick, fallback);
  }

  /** The posted caption and the returned fields come from the draft's
      segments by position: image word 0, title 1, caption 8, hashtags 9. */
  lemma OutcomeFields(fullText: string)
    requires ParseDraft(fullText).Ok?
    ensures var d := ParseDraft(fullText).value;
      var p := Segments(fullText);
      && d.imageWord == p[0] && d.title == p[1] && d.caption == p[8] && d.hashtags == p[9]
      && (forall i :: 0 <= i < ImagesNeeded ==> d.paragraphs[i] == p[i + 2])
      && PostCaption(d) == p[8] + "\n\n" + p[9]
  {
    var d := ParseDraft(fullText).value;
    var p := Segments(fullText);
    FieldsByPosition(d, p);
  }

  lemma FieldsByPosition(d: Post, p: seq<string>)
    requires |p| >= SegmentCount && |d.paragraphs| == ImagesNeeded && Fields(d) == p[..SegmentCount]
    ensures d.imageWord == p[0] && d.title == p[1] && d.caption == p[8] && d.hashtags == p[9]
    ensures forall i :: 0 <= i < ImagesNeeded ==> d.paragraphs[i] == p[i + 2]
    ensures PostCaption(d) == p[8] + "\n\n" + p[9]
  {
    assert Fields(d)[0] == p[0] && Fields(d)[1] == p[1] && Fields(d)[8] == p[8] && Fields(d)[9] == p[9];
    forall i | 0 <= i < ImagesNeeded ensures d.paragraphs[i] == p[i + 2] {
      assert Fields(d)[i + 2] == p[i + 2];
    }
  }
}
