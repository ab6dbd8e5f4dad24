/** The two prompt templates sent to the text-generation service: one asking
    for an image description of a word and its meaning, one asking for an
    example sentence using the word. */
module Prompts {
  import opened Text

  const ImageOpen := "Based on the word '"
  const ImageMiddle := "' meaning '"
  const ImageClose := "', create a vivid image description in English."

  const SentenceOpen := "Create a simple English sentence using the word '"
  const SentenceClose := "'."

  /** The image-description prompt: the word and the translation, each in
      single quotes, at fixed places in a fixed sentence. */
  function ImagePrompt(word: string, translation: string): (p: string)
    ensures |p| == |ImageOpen| + |word| + |ImageMiddle| + |translation| + |ImageClose|
    ensures p[..|ImageOpen|] == ImageOpen
    ensures p[|ImageOpen|..|ImageOpen| + |word|] == word
    ensures p[|ImageOpen| + |word|..|ImageOpen| + |word| + |ImageMiddle|] == ImageMiddle
    ensures p[|p| - |ImageClose| - |translation|..|p| - |ImageClose|] == translation
    ensures p[|p| - |ImageClose|..] == ImageClose
  {
    ImageOpen + word + ImageMiddle + translation + ImageClose
  }

  /** The example-sentence prompt: the word in single quotes between a fixed
      lead and a fixed close. */
  function SentencePrompt(word: string): (p: string)
    ensures |p| == |SentenceOpen| + |word| + |SentenceClose|
    ensures p[..|SentenceOpen|] == SentenceOpen
    ensures p[|SentenceOpen|..|p| - |SentenceClose|] == word
    ensures p[|p| - |SentenceClose|..] == SentenceClose
  {
    SentenceOpen + word + SentenceClose
  }

  /** Different words give different sentence prompts. */
  lemma {:induction false} SentencePromptInjective(w1: string, w2: string)
    requires SentencePrompt(w1) == SentencePrompt(w2)
    ensures w1 == w2
  {
    var p := SentencePrompt(w1);
    assert w1 == p[|SentenceOpen|..|p| - |SentenceClose|];
  }

  /** A word free of `q` followed by text starting with `q` can be read back
      off the front: the first `q` marks where the word ends. */
  lemma {:induction false} StopAtMark(w1: string, r1: string, w2: string, r2: string, q: char)
    requires q !in w1 && q !in w2 && |r1| > 0 && |r2| > 0 && r1[0] == q && r2[0] == q
    requires w1 + r1 == w2 + r2
    ensures w1 == w2 && r1 == r2
  {
    IndexOfConcat(w1, r1, q);
    IndexOfConcat(w2, r2, q);
    assert |w1| == |w2|;
    assert w1 == (w1 + r1)[..|w1|];
    assert w2 == (w2 + r2)[..|w2|];
    assert r1 == (w1 + r1)[|w1|..];
    assert r2 == (w2 + r2)[|w2|..];
  }

  /** The template argument behind `ImagePromptInjective`, for any lead,
      middle and close, as long as the middle starts with the character the
      words never contain. */
  lemma {:induction false} TemplateInjective(a: string, w1: string, w2: string, m: string,
                                             t1: string, t2: string, c: string, q: char)
    requires q !in w1 && q !in w2 && |m| > 0 && m[0] == q
    requires a + w1 + m + t1 + c == a + w2 + m + t2 + c
    ensures w1 == w2 && t1 == t2
  {
    var r1, r2 := m + t1 + c, m + t2 + c;
    assert a + w1 + m + t1 + c == a + (w1 + r1);
    assert a + w2 + m + t2 + c == a + (w2 + r2);
    assert w1 + r1 == (a + (w1 + r1))[|a|..];
    assert w2 + r2 == (a + (w2 + r2))[|a|..];
    StopAtMark(w1, r1, w2, r2, q);
    assert t1 == r1[|m|..|r1| - |c|];
    assert t2 == r2[|m|..|r2| - |c|];
  }

  /** As long as the word holds no single quote, the image prompt determines
      both the word and the translation: the word ends at the first quote
      after the lead. */
  lemma {:induction false} ImagePromptInjective(w1: string, t1: string, w2: string, t2: string)
    requires '\'' !in w1 && '\'' !in w2
    requires ImagePrompt(w1, t1) == ImagePrompt(w2, t2)
    ensures w1 == w2 && t1 == t2
  {
    TemplateInjective(ImageOpen, w1, w2, ImageMiddle, t1, t2, ImageClose, '\'');
  }

}
