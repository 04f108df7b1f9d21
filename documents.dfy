/** The pure middle of `embed_text_in_chromadb` in embed.py: split the text
    with a chunk size of 1000 and turn each section into a document record
    carrying the document's name, its description and the section's index. */
module Documents {
  import opened PyStr
  import Chunker

  /** The chunk size `embed_text_in_chromadb` passes to the splitter. */
  const ChunkSize: int := 1000

  /** A LangChain `Document` as built here: the page content and the three
      metadata entries "name", "description" and "chunk". */
  datatype Document = Document(content: Str, name: Str, description: Str, chunk: nat)

  /** The list comprehension over `enumerate(sections)`: one record per
      section, in order, numbered from 0. */
  function ToDocuments(sections: seq<Str>, name: Str, description: Str): (docs: seq<Document>)
    ensures |docs| == |sections|
    ensures forall i :: 0 <= i < |docs| ==> docs[i] == Document(sections[i], name, description, i)
  {
    if sections == [] then []
    else
      ToDocuments(sections[..|sections| - 1], name, description)
      + [Document(sections[|sections| - 1], name, description, |sections| - 1)]
  }

  /** Lines 50-59 of `embed_text_in_chromadb`: split, then build the records. */
  method BuildDocuments(text: Str, name: Str, description: Str) returns (docs: seq<Document>)
    ensures docs == ToDocuments(Chunker.Sections(text, ChunkSize), name, description)
    ensures |docs| >= 1
    ensures forall i :: 0 <= i < |docs| ==>
      docs[i].chunk == i && docs[i].name == name && docs[i].description == description
  {
    var sections := Chunker.SplitTextIntoSections(text, ChunkSize);
    docs := ToDocuments(sections, name, description);
  }
}
