/**
 * Detection and anonymization of every input text: the category guard in
 * front of Presidio's analyzer (`run_redaction`) and the loop that fills
 * `text_results`, one entry per input text.
 *
 * Presidio's analyzer and anonymizer are not part of this model; they are
 * parameters. Both are PARTIAL functions: the model only assumes they can be
 * applied to a non-empty category list and a non-empty detection list. Since
 * Dafny checks that a partial function is applied only where it is defined,
 * every member below that verifies under these assumptions never calls the
 * analyzer with an empty category list and never calls the anonymizer with
 * an empty detection list.
 */
module Redaction {
  import opened Records

  /** `analyzer.analyze(text=..., entities=..., language='en')` */
  type Analyzer = (string, seq<string>) --> seq<Detection>

  /** `anonymizer.anonymize(text=..., analyzer_results=...)`, read back through its JSON form. */
  type Anonymizer = (string, seq<Detection>) --> FileResult

  /** The analyzer can be asked about any text for any non-empty category list. */
  ghost predicate AnalyzerReady(analyze: Analyzer)
  {
    forall text, entities :: entities != [] ==> analyze.requires(text, entities)
  }

  /** The anonymizer can be applied to any text with any non-empty list of detections. */
  ghost predicate AnonymizerReady(anonymize: Anonymizer)
  {
    forall text, results :: results != [] ==> anonymize.requires(text, results)
  }

  /**
   * `run_redaction`: an empty category list gives no detections without
   * consulting the analyzer (the analyzer would read an empty list as "every
   * category"); otherwise the analyzer's answer is passed on unchanged.
   */
  function RunRedaction(text: string, entities: seq<string>, analyze: Analyzer): (results: seq<Detection>)
    requires entities != [] ==> analyze.requires(text, entities)
    ensures entities == [] ==> results == []
    ensures entities != [] ==> results == analyze(text, entities)
  {
    if entities == [] then [] else analyze(text, entities)
  }

  /**
   * The entry one pass of the batch loop stores for `text`: the text itself
   * with no items when nothing was detected, the anonymizer's record
   * otherwise.
   */
  function RedactText(text: string, entities: seq<string>, analyze: Analyzer, anonymize: Anonymizer): (r: FileResult)
    requires AnalyzerReady(analyze) && AnonymizerReady(anonymize)
    ensures entities == [] ==> r == FileResult(text, [])
    ensures RunRedaction(text, entities, analyze) == [] ==> r == FileResult(text, [])
  {
    var results := RunRedaction(text, entities, analyze);
    if results == [] then FileResult(text, []) else anonymize(text, results)
  }

  /**
   * The loop over `texts` that fills `text_results`: exactly one entry per
   * key of `texts`, each the entry `RedactText` gives for that key's text.
   */
  method RedactBatch(texts: map<string, string>, entities: seq<string>, analyze: Analyzer, anonymize: Anonymizer)
    returns (textResults: map<string, FileResult>)
    requires AnalyzerReady(analyze) && AnonymizerReady(anonymize)
    ensures textResults.Keys == texts.Keys
    ensures forall name :: name in texts ==>
      textResults[name] == RedactText(texts[name], entities, analyze, anonymize)
    ensures forall name :: name in texts && RunRedaction(texts[name], entities, analyze) == [] ==>
      textResults[name] == FileResult(texts[name], [])
  {
    textResults := map[];
    var remaining := texts.Keys;
    while remaining != {}
      invariant remaining <= texts.Keys
      invariant textResults.Keys == texts.Keys - remaining
      invariant forall name :: name in textResults ==>
        textResults[name] == RedactText(texts[name], entities, analyze, anonymize)
      decreases remaining
    {
      var name :| name in remaining;
      var text := texts[name];
      var results := RunRedaction(text, entities, analyze);
      if results == [] {
        textResults := textResults[name := FileResult(text, [])];
      } else {
        var anonymized := anonymize(text, results);
        textResults := textResults[name := anonymized];
      }
      remaining := remaining - {name};
    }
  }
}
