/**
 * Building the `texts` dictionary from the input. In text mode it holds the
 * typed text under the key "raw_input". In upload mode each uploaded file is
 * split into elements by the document partitioner, the non-empty element
 * texts are joined, each followed by a newline, and the result is stored
 * under the file's name; a later file with the same name replaces an earlier
 * one.
 */
module Extraction {

  /** An uploaded file: its name and its raw bytes. */
  datatype UploadedFile = UploadedFile(name: string, data: seq<bv8>)

  /** The texts of the elements the document partitioner finds in a file, in document order. */
  type Partitioner = UploadedFile -> seq<string>

  /** How the script receives its input. */
  datatype InputMode = TextInput(text: string) | FileUpload(files: seq<UploadedFile>)

  /** The key under which the typed text is stored in text mode. */
  const RawInputKey: string := "raw_input"

  /** What one element contributes to its file's text: nothing when its text is empty. */
  function Contribution(element: string): string
  {
    if element == "" then "" else element + "\n"
  }

  /** The text of a file: the contributions of its elements, in order. */
  function JoinElements(elements: seq<string>): string
    decreases |elements|
  {
    if elements == [] then "" else Contribution(elements[0]) + JoinElements(elements[1..])
  }

  /** Joining distributes over concatenation of element lists. */
  lemma {:induction false} JoinAppend(a: seq<string>, b: seq<string>)
    ensures JoinElements(a + b) == JoinElements(a) + JoinElements(b)
    decreases |a|
  {
    if a != [] {
      assert (a + b)[0] == a[0] && (a + b)[1..] == a[1..] + b;
      JoinAppend(a[1..], b);
      var c := Contribution(a[0]);
      assert JoinElements(a) == c + JoinElements(a[1..]);
      assert JoinElements(a + b) == c + (JoinElements(a[1..]) + JoinElements(b));
      assert c + (JoinElements(a[1..]) + JoinElements(b)) == (c + JoinElements(a[1..])) + JoinElements(b);
    } else {
      assert a + b == b;
    }
  }

  /** A file's text is empty exactly when every element's text is empty. */
  lemma {:induction false} JoinEmptyIff(elements: seq<string>)
    ensures JoinElements(elements) == "" <==> forall i :: 0 <= i < |elements| ==> elements[i] == ""
    decreases |elements|
  {
    if elements != [] {
      var tail := elements[1..];
      JoinEmptyIff(tail);
      assert JoinElements(elements) == Contribution(elements[0]) + JoinElements(tail);
      assert (forall i :: 0 <= i < |elements| ==> elements[i] == "")
        <==> elements[0] == "" && forall i :: 0 <= i < |tail| ==> tail[i] == "" by {
        forall i | 0 <= i < |tail| ensures tail[i] == elements[i + 1] { }
      }
    }
  }

  /** A non-empty file text always ends with a newline. */
  lemma {:induction false} JoinEndsWithNewline(elements: seq<string>)
    ensures JoinElements(elements) != "" ==> JoinElements(elements)[|JoinElements(elements)| - 1] == '\n'
    decreases |elements|
  {
    if elements != [] {
      JoinEndsWithNewline(elements[1..]);
      var rest := JoinElements(elements[1..]);
      if rest == "" {
        assert JoinElements(elements) == Contribution(elements[0]);
      } else {
        var whole := JoinElements(elements);
        assert whole == Contribution(elements[0]) + rest;
        assert whole[|whole| - 1] == rest[|rest| - 1];
      }
    }
  }

  /** The loop over one file's elements that accumulates `file_text`. */
  method FileText(elements: seq<string>) returns (fileText: string)
    ensures fileText == JoinElements(elements)
  {
    fileText := "";
    for i := 0 to |elements|
      invariant fileText == JoinElements(elements[..i])
    {
      assert elements[..i + 1] == elements[..i] + [elements[i]];
      JoinAppend(elements[..i], [elements[i]]);
      assert JoinElements([elements[i]]) == Contribution(elements[i]);
      if elements[i] != "" {
        fileText := fileText + elements[i] + "\n";
      }
    }
    assert elements[..|elements|] == elements;
  }

  /** The dictionary after the upload loop has stored `files` in order. */
  function TextsOf(files: seq<UploadedFile>, partition: Partitioner): map<string, string>
    decreases |files|
  {
    if files == [] then map[]
    else
      var last := files[|files| - 1];
      TextsOf(files[..|files| - 1], partition)[last.name := JoinElements(partition(last))]
  }

  /** Every uploaded file's name is a key, and nothing else is. */
  lemma {:induction false} TextsOfKeys(files: seq<UploadedFile>, partition: Partitioner)
    ensures TextsOf(files, partition).Keys == set i | 0 <= i < |files| :: files[i].name
    decreases |files|
  {
    if files != [] {
      var n := |files| - 1;
      TextsOfKeys(files[..n], partition);
      var before := set i | 0 <= i < n :: files[..n][i].name;
      assert before == set i | 0 <= i < n :: files[i].name by {
        forall i | 0 <= i < n ensures files[..n][i] == files[i] { }
      }
      assert (set i | 0 <= i < |files| :: files[i].name) == before + {files[n].name};
    }
  }

  /** Under a name shared by several files, the text is that of the last of them. */
  lemma {:induction false} TextsOfLastWins(files: seq<UploadedFile>, partition: Partitioner, i: int)
    requires 0 <= i < |files|
    requires forall j :: i < j < |files| ==> files[j].name != files[i].name
    ensures files[i].name in TextsOf(files, partition)
    ensures TextsOf(files, partition)[files[i].name] == JoinElements(partition(files[i]))
    decreases |files|
  {
    var n := |files| - 1;
    if i < n {
      forall j | i < j < n ensures files[..n][j].name != files[..n][i].name {
        assert files[..n][j] == files[j] && files[..n][i] == files[i];
      }
      TextsOfLastWins(files[..n], partition, i);
      assert files[..n][i] == files[i];
    }
  }

  /** The upload loop: partitions each file and stores its text under its name. */
  method CollectTexts(files: seq<UploadedFile>, partition: Partitioner) returns (texts: map<string, string>)
    ensures texts == TextsOf(files, partition)
  {
    texts := map[];
    for i := 0 to |files|
      invariant texts == TextsOf(files[..i], partition)
    {
      var file := files[i];
      var elements := partition(file);
      var fileText := FileText(elements);
      assert files[..i + 1][..i] == files[..i];
      texts := texts[file.name := fileText];
    }
    assert files[..|files|] == files;
  }

  /** The `texts` dictionary for either input mode. */
  method GatherTexts(mode: InputMode, partition: Partitioner) returns (texts: map<string, string>)
    ensures mode.TextInput? ==> texts == map[RawInputKey := mode.text]
    ensures mode.FileUpload? ==> texts == TextsOf(mode.files, partition)
  {
    match mode
    case TextInput(text) =>
      texts := map[RawInputKey := text];
    case FileUpload(files) =>
      texts := CollectTexts(files, partition);
  }
}
