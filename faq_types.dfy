/** The FAQ record shared by both extractors and the exporters. */
module FaqTypes {
  import opened Wrappers

  /** The three confidence tiers an FAQ can carry. */
  datatype Confidence = High | Medium | Low

  /**
   * One extracted question and answer. `language` is optional because neither
   * extractor fills it in, although the record type declares it.
   */
  datatype FAQItem = FAQItem(
    id: string,
    question: string,
    answer: string,
    category: string,
    language: Option<string>,
    sourceUrl: string,
    confidence: Confidence,
    isIncomplete: bool,
    isDuplicate: bool,
    extractedAt: string)

  /**
   * The parts of an item that come from the clock and the random generator
   * (`faq-<now>-<random>` and the ISO time of creation). The model receives them
   * from outside, one per item created.
   */
  datatype Stamp = Stamp(id: string, extractedAt: string)

  /** One page produced by the crawler. */
  datatype CrawledContent = CrawledContent(url: string, content: string)
}
