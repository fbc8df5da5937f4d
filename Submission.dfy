/**
 * What pressing "Redact" produces: nothing (with a warning) when there is no
 * input; for exactly one text, a preview and a single download named after
 * its key; for two or more texts, an archive with one entry per key. Every
 * download is named `<key>.txt`.
 */
module Submission {
  import opened Records
  import Redaction
  import Preview

  /** The suffix every downloaded text gets. */
  const TextSuffix: string := ".txt"

  /** The download name for the result stored under `key`. */
  function OutputName(key: string): (name: string)
    ensures |name| == |key| + |TextSuffix|
    ensures name[..|key|] == key && name[|key|..] == TextSuffix
  {
    key + TextSuffix
  }

  /** Distinct keys give distinct download names. */
  lemma OutputNameInjective(a: string, b: string)
    ensures OutputName(a) == OutputName(b) ==> a == b
  {
    if OutputName(a) == OutputName(b) {
      assert |a| == |b|;
      assert a == OutputName(a)[..|a|] == OutputName(b)[..|b|] == b;
    }
  }

  /** The download names of a set of keys. */
  ghost function NamesOf(keys: set<string>): set<string>
  {
    set key | key in keys :: OutputName(key)
  }

  /** As many download names as keys: no two keys collide. */
  lemma {:induction false} NamesOfSize(keys: set<string>)
    ensures |NamesOf(keys)| == |keys|
    decreases |keys|
  {
    if keys != {} {
      var key :| key in keys;
      var others := keys - {key};
      NamesOfSize(others);
      assert NamesOf(keys) == NamesOf(others) + {OutputName(key)};
      forall other | other in others ensures OutputName(other) != OutputName(key) {
        OutputNameInjective(other, key);
      }
      assert OutputName(key) !in NamesOf(others);
    }
  }

  /** The archive's entries (lines 126-128): each result's text under `<key>.txt`. */
  function ArchiveEntries(textResults: map<string, FileResult>): (entries: map<string, string>)
    ensures entries.Keys == NamesOf(textResults.Keys)
    ensures forall key :: key in textResults ==> entries[OutputName(key)] == textResults[key].text
    ensures |entries| == |textResults|
  {
    forall a, b | a in textResults && b in textResults && OutputName(a) == OutputName(b) ensures a == b {
      OutputNameInjective(a, b);
    }
    NamesOfSize(textResults.Keys);
    var entries := map key | key in textResults :: OutputName(key) := textResults[key].text;
    assert entries.Keys == NamesOf(textResults.Keys);
    entries
  }

  /** What the user gets after pressing "Redact". */
  datatype Outcome =
    | NothingToRedact
    | SingleDownload(fileName: string, data: string, preview: string)
    | ArchiveDownload(entries: map<string, string>)

  /** The script from the "Redact" button on (lines 88-135), given the `texts` dictionary. */
  method Submit(texts: map<string, string>, entities: seq<string>,
                analyze: Redaction.Analyzer, anonymize: Redaction.Anonymizer)
    returns (outcome: Outcome)
    requires Redaction.AnalyzerReady(analyze) && Redaction.AnonymizerReady(anonymize)
    ensures texts == map[] <==> outcome.NothingToRedact?
    ensures |texts| == 1 <==> outcome.SingleDownload?
    ensures outcome.SingleDownload? ==>
      exists key :: texts.Keys == {key} &&
        var result := Redaction.RedactText(texts[key], entities, analyze, anonymize);
        outcome == SingleDownload(OutputName(key), result.text, Preview.BoldAll(result.text, result.items))
    ensures outcome.ArchiveDownload? ==>
      && |outcome.entries| == |texts|
      && outcome.entries.Keys == NamesOf(texts.Keys)
      && forall key :: key in texts ==>
           outcome.entries[OutputName(key)] == Redaction.RedactText(texts[key], entities, analyze, anonymize).text
  {
    if texts == map[] {
      return NothingToRedact;
    }
    var textResults := Redaction.RedactBatch(texts, entities, analyze, anonymize);
    if |texts| == 1 {
      var key :| key in texts;
      assert texts.Keys == {key} by {
        var others := texts.Keys - {key};
        assert |texts.Keys| == |others| + 1;
        assert others == {};
      }
      var result := textResults[key];
      var preview := Preview.BoldRedactedItems(result.text, result.items);
      outcome := SingleDownload(OutputName(key), result.text, preview);
    } else {
      assert |textResults| == |texts|;
      outcome := ArchiveDownload(ArchiveEntries(textResults));
    }
  }
}
