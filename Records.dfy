/**
 * The records that flow through the redaction script.
 */
module Records {

  /**
   * One detection returned by Presidio's analyzer (a recognizer result):
   * the entity type and the half-open character offsets into the analysed
   * text. The confidence score is carried along but never interpreted.
   */
  datatype Detection = Detection(entityType: string, start: int, end: int, score: real)

  /**
   * One entry of the anonymizer's "items" list, as read back from its JSON
   * form: offsets into the ANONYMIZED text, the entity type, the text that
   * replaced the entity and the name of the operator that produced it.
   */
  datatype Item = Item(start: int, end: int, entityType: string, text: string, operator: string)

  /** The per-text record kept in `text_results`: `{"text": ..., "items": [...]}`. */
  datatype FileResult = FileResult(text: string, items: seq<Item>)
}
