/**
 * The records of the book wizard: chapters, the book, the four wizard steps and
 * the progress record shown while a book is being produced.
 */
module Types {

  datatype Option<+T> = None | Some(value: T)

  /** JavaScript truthiness of an optional string: present and not empty. */
  predicate Truthy(s: Option<string>) {
    s.Some? && s.value != ""
  }

  /**
   * A chapter: `title` and `description` come from the outline, `content` is
   * absent until the chapter is written; the two flags are for display only.
   */
  datatype Chapter = Chapter(
    title: string,
    description: string,
    content: Option<string>,
    isGenerating: Option<bool>,
    isDone: Option<bool>)

  /** `Partial<BookData>`, the shape the wizard keeps: every key may be missing. */
  datatype PartialBook = PartialBook(
    title: Option<string>,
    topic: Option<string>,
    targetAudience: Option<string>,
    chapters: Option<seq<Chapter>>,
    coverImageBase64: Option<string>)

  /** The wizard steps, a closed set of four. */
  datatype WizardStep = Input | Outline | Generating | Result

  /**
   * A progress snapshot. The source's field names are kept, although what it
   * stores in `completedChapters`/`totalChapters` are operations (chapters and cover).
   */
  datatype GenerationProgress = GenerationProgress(
    currentTask: string,
    progressPercent: real,
    completedChapters: int,
    totalChapters: int)

  /** `{}`: the book with no key set. */
  const EMPTY_BOOK := PartialBook(None, None, None, None, None)

  /** The progress record the wizard starts from and returns to on reset. */
  const ZERO_PROGRESS := GenerationProgress("", 0.0, 0, 0)

  /** `{ topic }` */
  function TopicOnly(topic: string): (r: PartialBook)
    ensures r.topic == Some(topic)
    ensures r.(topic := None) == EMPTY_BOOK
  {
    EMPTY_BOOK.(topic := Some(topic))
  }

  function Override<T>(later: Option<T>, earlier: Option<T>): Option<T> {
    if later.Some? then later else earlier
  }

  /** Object spread `{ ...prev, ...next }`: the keys present in `next` win, the others keep `prev`'s. */
  function Merge(prev: PartialBook, next: PartialBook): (r: PartialBook)
    ensures next.title.Some? ==> r.title == next.title
    ensures next.title.None? ==> r.title == prev.title
    ensures next.topic.Some? ==> r.topic == next.topic
    ensures next.topic.None? ==> r.topic == prev.topic
    ensures next.targetAudience.Some? ==> r.targetAudience == next.targetAudience
    ensures next.targetAudience.None? ==> r.targetAudience == prev.targetAudience
    ensures next.chapters.Some? ==> r.chapters == next.chapters
    ensures next.chapters.None? ==> r.chapters == prev.chapters
    ensures next.coverImageBase64.Some? ==> r.coverImageBase64 == next.coverImageBase64
    ensures next.coverImageBase64.None? ==> r.coverImageBase64 == prev.coverImageBase64
  {
    PartialBook(
      Override(next.title, prev.title),
      Override(next.topic, prev.topic),
      Override(next.targetAudience, prev.targetAudience),
      Override(next.chapters, prev.chapters),
      Override(next.coverImageBase64, prev.coverImageBase64))
  }

  /**
   * Spreading an outline over `{ topic }`: every key the outline carries is taken
   * from it, and the topic stays unless the outline itself carries one.
   */
  lemma MergeOntoTopic(topic: string, outline: PartialBook)
    ensures var r := Merge(TopicOnly(topic), outline);
      && r.topic == (if outline.topic.Some? then outline.topic else Some(topic))
      && r.(topic := outline.topic) == outline
  {
  }

  /** Concatenation is associative. */
  lemma SeqAssoc<T>(a: seq<T>, b: seq<T>, c: seq<T>)
    ensures a + b + c == a + (b + c)
  {
  }

  lemma SeqAssoc3<T>(x: seq<T>, a: seq<T>, b: seq<T>, c: seq<T>)
    ensures x + a + b + c == x + (a + b + c)
  {
    SeqAssoc(x, a, b);
    SeqAssoc(x, a + b, c);
  }
}
