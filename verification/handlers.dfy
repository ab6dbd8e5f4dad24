/** The two generation handlers bound to the buttons, `generate_image` and
    `generate_sentence_audio`. The services they call are outside the model:
    each handler takes what the services answer as parameters (`None` when
    the call raises) and reports, besides its result, the list of service
    calls it made, in order. */
module Handlers {
  import opened Wrappers
  import opened Text
  import opened Vocabulary
  import opened Selection
  import opened Prompts
  import opened Flux

  const ImageModel := "llama2"
  const SentenceModel := "mistral"
  const Voice := "en-US-ChristopherNeural"

  /** The fixed rendering parameters of `generate_image`. */
  const RenderSeed: nat := 2
  const RenderSteps: nat := 1
  const RenderSize: nat := 384

  /** A request to an outside service. */
  datatype ServiceCall =
    | Chat(model: string, prompt: string)
    | Render(seed: nat, prompt: string, steps: nat, height: nat, width: nat)
    | Speak(text: string, voice: string)

  /** `not selected_word`: no selection at all, or the empty string. */
  predicate IsBlank(selection: Option<string>) {
    selection.None? || selection.value == []
  }

  /** The fields a handler works with: `None` when it returns early on a
      blank selection or its colon split raises. */
  function SelectedFields(selection: Option<string>): (fields: Option<WordEntry>)
  {
    if IsBlank(selection) then None else ParseSelection(selection.value)
  }

  /** What one run of `generate_image` returns, which services it called,
      and the model-handle global afterwards. */
  datatype ImageRun<Img> = ImageRun(image: Option<Img>, calls: seq<ServiceCall>, slot: FluxSlot)

  /** `generate_image(selected_word)`. `description` is the text service's
      answer to the description prompt, `builds` whether the model
      constructor returns if `get_flux_instance` calls it, `cleaned` whether
      the memory clean-up before rendering returns, and `rendered` the
      normalised picture the renderer produces; `None` (or `false`) means
      that step raised. */
  function GenerateImage<Img>(selection: Option<string>, slot: FluxSlot, description: Option<string>,
                              builds: bool, cleaned: bool, rendered: Option<Img>): (run: ImageRun<Img>)
    ensures IsBlank(selection) ==> run == ImageRun(None, [], slot)
    ensures run.calls == [] <==> SelectedFields(selection).None?
    ensures run.calls == [] ==> run.image.None?
    ensures run.image.Some? <==>
      && SelectedFields(selection).Some? && description.Some?
      && (slot.instance.Some? || builds) && cleaned && rendered.Some?
    ensures run.image.Some? ==> run.image == rendered
    ensures |run.calls| <= 2
    ensures run.calls != [] ==>
      var f := SelectedFields(selection).value;
      run.calls[0] == Chat(ImageModel, ImagePrompt(f.word, f.translation))
    ensures |run.calls| == 2 <==>
      SelectedFields(selection).Some? && description.Some? && (slot.instance.Some? || builds) && cleaned
    ensures |run.calls| == 2 ==>
      run.calls[1] == Render(RenderSeed, description.value, RenderSteps, RenderSize, RenderSize)
    ensures SelectedFields(selection).None? || description.None? ==> run.slot == slot
    ensures SelectedFields(selection).Some? && description.Some? ==>
      run.slot == GetFluxInstance(slot, builds).1
  {
    match SelectedFields(selection)
    case None => ImageRun(None, [], slot)
    case Some(f) =>
      var ask := Chat(ImageModel, ImagePrompt(f.word, f.translation));
      match description
      case None => ImageRun(None, [ask], slot)
      case Some(text) =>
        var (flux, slot') := GetFluxInstance(slot, builds);
        if flux.None? || !cleaned then ImageRun(None, [ask], slot')
        else ImageRun(rendered, [ask, Render(RenderSeed, text, RenderSteps, RenderSize, RenderSize)], slot')
  }

  /** What one run of `generate_sentence_audio` returns and which services it
      called. */
  datatype SentenceRun = SentenceRun(sentence: string, audio: Option<string>, calls: seq<ServiceCall>)

  /** `generate_sentence_audio(selected_word)`. `reply` is the text
      service's answer to the sentence prompt and `audioPath` the path the
      speech synthesis writes; `None` in either means that step raised. */
  function GenerateSentenceAudio(selection: Option<string>, reply: Option<string>,
                                 audioPath: Option<string>): (run: SentenceRun)
    ensures IsBlank(selection) ==> run == SentenceRun("", None, [])
    ensures run.calls == [] <==> SelectedFields(selection).None?
    ensures run.audio.Some? <==> SelectedFields(selection).Some? && reply.Some? && audioPath.Some?
    ensures run.audio.Some? ==> run.audio == audioPath && run.sentence == reply.value
    ensures run.audio.None? ==> run.sentence == ""
    ensures |run.calls| <= 2
    ensures run.calls != [] ==>
      run.calls[0] == Chat(SentenceModel, SentencePrompt(SelectedFields(selection).value.word))
    ensures |run.calls| == 2 <==> SelectedFields(selection).Some? && reply.Some?
    ensures |run.calls| == 2 ==> run.calls[1] == Speak(reply.value, Voice)
  {
    match SelectedFields(selection)
    case None => SentenceRun("", None, [])
    case Some(f) =>
      var ask := Chat(SentenceModel, SentencePrompt(f.word));
      match reply
      case None => SentenceRun("", None, [ask])
      case Some(text) =>
        var speak := Speak(text, Voice);
        match audioPath
        case None => SentenceRun("", None, [ask, speak])
        case Some(path) => SentenceRun(text, Some(path), [ask, speak])
  }

  /** A selection without a colon does nothing in either handler: no result,
      no service call, the model handle untouched. */
  lemma {:induction false} NoColonDoesNothing<Img>(token: string, slot: FluxSlot,
                                                   description: Option<string>, builds: bool, cleaned: bool,
                                                   rendered: Option<Img>, reply: Option<string>, audioPath: Option<string>)
    requires ':' !in token
    ensures GenerateImage(Some(token), slot, description, builds, cleaned, rendered) == ImageRun(None, [], slot)
    ensures GenerateSentenceAudio(Some(token), reply, audioPath) == SentenceRun("", None, [])
  {
    assert SelectedFields(Some(token)).None?;
  }

  /** The sentence handler parses the translation but never uses it: two
      selections with the same colon-free word behave the same. */
  lemma {:induction false} SentenceIgnoresTranslation(w: string, t1: string, t2: string,
                                                      reply: Option<string>, audioPath: Option<string>)
    requires ':' !in w
    ensures GenerateSentenceAudio(Some(w + ":" + t1), reply, audioPath)
         == GenerateSentenceAudio(Some(w + ":" + t2), reply, audioPath)
  {
    assert w + ":" + t1 == w + [':'] + t1;
    assert w + ":" + t2 == w + [':'] + t2;
    ParsedWordBeforeColon(w, t1);
    ParsedWordBeforeColon(w, t2);
  }

  /** Choosing a line of the loaded list whose fields are colon-free and bare
      asks the text service about exactly that word and translation. */
  lemma {:induction false} LoadedLineDrivesPrompts<Img>(e: WordEntry, slot: FluxSlot,
                                                        description: Option<string>, builds: bool, cleaned: bool,
                                                        rendered: Option<Img>, reply: Option<string>, audioPath: Option<string>)
    requires Clean(e)
    ensures GenerateImage(Some(Display(e)), slot, description, builds, cleaned, rendered).calls[0]
         == Chat(ImageModel, ImagePrompt(e.word, e.translation))
    ensures GenerateSentenceAudio(Some(Display(e)), reply, audioPath).calls[0]
         == Chat(SentenceModel, SentencePrompt(e.word))
  {
    DisplayRoundTrip(e);
    assert Display(e) != [];
  }

  /** End to end for a clean line of the loaded list: when both services
      answer, the sentence shown is exactly the text service's answer and the
      audio is the synthesised file (for the line "apple: 苹果" and the answer
      "I eat an apple.", that sentence and its file). */
  lemma {:induction false} CleanLineSentence(e: WordEntry, text: string, path: string)
    requires Clean(e)
    ensures GenerateSentenceAudio(Some(Display(e)), Some(text), Some(path))
         == SentenceRun(text, Some(path), [Chat(SentenceModel, SentencePrompt(e.word)), Speak(text, Voice)])
  {
    DisplayRoundTrip(e);
    assert Display(e) != [];
  }

  /** One press of the image button, with what the services, the model
      constructor and the memory clean-up do. */
  datatype ImageRequest<Img> = ImageRequest(selection: Option<string>, description: Option<string>,
                                            builds: bool, cleaned: bool, rendered: Option<Img>)

  /** A process lifetime of image requests handled one after another; the
      images produced and the model-handle global at the end. */
  function ImageSession<Img>(slot: FluxSlot, requests: seq<ImageRequest<Img>>): (r: (seq<Option<Img>>, FluxSlot))
    ensures |r.0| == |requests|
    decreases |requests|
  {
    if |requests| == 0 then ([], slot)
    else
      var q := requests[0];
      var run := GenerateImage(q.selection, slot, q.description, q.builds, q.cleaned, q.rendered);
      var (images, last) := ImageSession(run.slot, requests[1..]);
      ([run.image] + images, last)
  }

  /** However many images a session renders, the model handle is built
      successfully at most once: a handle, once stored, stays the global
      for the rest of the session, and whatever handle the global holds is
      the one the most recent constructor call returned. Failed
      constructions leave the global unset. */
  lemma {:induction false} SessionBuildsModelAtMostOnce<Img>(slot: FluxSlot, requests: seq<ImageRequest<Img>>)
    requires Reachable(slot)
    ensures Reachable(ImageSession(slot, requests).1)
    ensures slot.instance.Some? ==> ImageSession(slot, requests).1 == slot
    ensures ImageSession(slot, requests).1.constructions >= slot.constructions
    decreases |requests|
  {
    if |requests| > 0 {
      var q := requests[0];
      var run := GenerateImage(q.selection, slot, q.description, q.builds, q.cleaned, q.rendered);
      assert Reachable(run.slot);
      SessionBuildsModelAtMostOnce(run.slot, requests[1..]);
    }
  }

}
