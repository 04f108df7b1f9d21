# Paragraph chunker of a retrieval-augmented question-answering helper

The ingestion script `embed.py` downloads a PDF and extracts its text. It
then cuts the text into sections with `split_text_into_sections`, wraps each
section in a document record, and stores the records in a vector database.
This project models the two local steps of that pipeline in Dafny and proves
what they promise:

- `split_text_into_sections(text, chunk_size)`. It cuts the text into
  paragraphs on `"\n\n"`. It walks the paragraphs in order and appends
  `p + "\n\n"` to a running buffer while `len(buffer) + len(p) < chunk_size`.
  When a paragraph fails that test, it emits the stripped buffer, if there is
  one, and opens a new buffer with that paragraph. After the loop it emits the
  last buffer, stripped.
- The list comprehension that turns the sections into records. Each record
  holds the section text, the document's name and description, and the
  section's index as `chunk`. The split uses a chunk size of 1000.

Files:

- `pystr.dfy` (module `PyStr`): the Python string built-ins the splitter uses.
  `str.split(sep)` scans left to right without overlap and always gives at
  least one piece. `sep.join(pieces)` joins. `str.strip()` removes the exact
  set of characters CPython treats as whitespace. Strings are sequences of
  Unicode scalar values, so `len` counts code points as Python does.
- `chunker.dfy` (module `Chunker`): the splitter. `SplitTextIntoSections` is
  the loop, written imperatively. It is proved equal to `Sections`, which
  applies `Pack` to the paragraphs. `Pack` is the greedy grouping of
  paragraphs into runs, defined on the prefix seen so far, which is how the
  loop sees it. `Greedy` is an independent description of a greedy partition.
  `Pack` is proved to be the one and only greedy partition.
- `documents.dfy` (module `Documents`): the record-building step and the
  split-then-build sequence of `embed_text_in_chromadb`.

Behaviour of the code worth knowing:

- Sections can be empty. Empty text gives `[""]`, and whitespace-only text
  gives only empty sections.
- Whitespace-only text gives exactly `[""]` when it holds no `"\n\n"` or
  when it is shorter than `chunk_size`. Otherwise it can give several empty
  sections: `"\n\n\n\n"` with `chunk_size` 1 gives three.
- The size test is strict and counts the `"\n\n"` separators already in the
  buffer. A section of two or more paragraphs is strictly shorter than
  `chunk_size`. A section can reach `chunk_size` only when it is a single
  paragraph that is itself at least `chunk_size` long.
- Only `"\n\n"` is a paragraph boundary; a single newline is not.

## Model

| member | source | states |
|---|---|---|
| `PyStr.Split` | embed.py:26 | `text.split('\n\n')` always yields at least one paragraph |
| `PyStr.IsSpace` | embed.py:34 | the characters `str.strip()` removes: exactly those for which CPython's `str.isspace()` holds (9-13, 28-32, U+0085, U+00A0, U+1680, U+2000-U+200A, U+2028, U+2029, U+202F, U+205F, U+3000) |
| `PyStr.FindFromSpec` | embed.py:26 | the scan `split` performs finds an occurrence of the separator, and no occurrence lies before the one it finds (or anywhere after the start, when it finds none) |
| `PyStr.SplitPieces` | embed.py:26 | no paragraph contains the separator, and each paragraph but the last ends at the leftmost separator after it (left-to-right, non-overlapping cutting) |
| `PyStr.SplitJoin` | embed.py:26 | joining the paragraphs with the separator gives back the text |
| `PyStr.SplitUnique` | embed.py:26 | any cutting that joins back to the text and cuts at leftmost separators is the split: together with SplitPieces and SplitJoin this pins the split down |
| `PyStr.StripLeftSpec` | embed.py:34 | the left half of strip keeps a suffix, drops only whitespace, and stops at a non-whitespace character |
| `PyStr.StripRightSpec` | embed.py:34 | the right half of strip keeps a prefix, drops only whitespace, and stops at a non-whitespace character |
| `PyStr.Strip` | embed.py:34 | the stripped section is no longer than the buffer; it is empty exactly when the buffer is all whitespace; otherwise it starts and ends with a non-whitespace character |
| `PyStr.StripTrailingSpace` | embed.py:34 | whitespace appended to a string, such as the trailing `"\n\n"` of the buffer, does not change the stripped result |
| `Chunker.ThreeNewlinesSplit` | embed.py:26 | `"a\n\n\nb"` is cut into `"a"` and `"\nb"` |
| `Chunker.BufferIsJoin` | embed.py:31 | the buffer built by appending `p + "\n\n"` for each paragraph of a run equals the run joined with `"\n\n"` plus a trailing `"\n\n"`; it is empty only before the first paragraph |
| `Chunker.Place` | embed.py:30-35 | one iteration of the loop on the runs of paragraphs: the paragraph joins the open run when the open buffer's length plus its own is under `chunk_size`, and otherwise opens a new run; with no run open (the empty buffer) both branches open the first run |
| `Chunker.Pack` | embed.py:29-35 | the greedy grouping yields at least one run for at least one paragraph, never more runs than paragraphs, and no empty run |
| `Chunker.PackIsGreedy` | embed.py:29-35 | the runs are a partition of the paragraphs: laid end to end they give the paragraphs back in order, with none dropped or duplicated; inside a run every paragraph after the first passed `len(buffer) + len(p) < chunk_size`; every run after the first opens with a paragraph that failed it |
| `Chunker.GreedyIsPack` | embed.py:30-35 | any partition with those properties is the packing: a new section begins exactly when `len(current_chunk) + len(p) >= chunk_size` |
| `Chunker.JoinStep` | embed.py:30-31 | a paragraph that passes the size test is appended to the open buffer with `"\n\n"`, and the loop state stays that of the packing |
| `Chunker.OpenStep` | embed.py:32-35 | a paragraph that fails the size test emits the stripped open buffer, if any, and opens a new buffer with itself, and the loop state stays that of the packing |
| `Chunker.FinalStep` | embed.py:36-37 | after the last paragraph the buffer is non-empty, so the final append always happens; with it the sections are exactly those of the packing, at most one per paragraph |
| `Chunker.SplitTextIntoSections` | embed.py:24-38 | the loop returns exactly the stripped buffers of the greedy runs; there is at least one section and at most one per paragraph |
| `Chunker.SectionIsStrippedRun` | embed.py:34 | a run's stripped buffer equals the run joined with `"\n\n"`, stripped |
| `Chunker.SectionsAreStrippedRuns` | embed.py:29-37 | there is one section per run, and section k is run k joined with `"\n\n"` and stripped |
| `Chunker.SectionsReconstructText` | embed.py:26-37 | the run texts joined with `"\n\n"` rebuild the input text, so the sections rebuild it up to the whitespace strip removes at the run boundaries |
| `Chunker.RunSizeBound` | embed.py:30-34 | a run of two or more admitted paragraphs strips to fewer than `chunk_size` characters |
| `Chunker.SectionSizeBound` | embed.py:30-35 | every section built from two or more paragraphs is strictly shorter than `chunk_size`; a section of `chunk_size` characters or more is a single paragraph at least that long |
| `Chunker.NonPositiveChunkSize` | embed.py:30-35 | with `chunk_size <= 0` every paragraph becomes its own stripped section |
| `Chunker.ShortTextOneSection` | embed.py:26-37 | text shorter than `chunk_size` gives the single section `text.strip()` |
| `Chunker.BlankTextEmptySections` | embed.py:26-37 | whitespace-only text gives only empty sections |
| `Chunker.FourNewlinesThreeEmptySections` | embed.py:26-37 | `"\n\n\n\n"` with `chunk_size` 1 gives three empty sections, so whitespace-only text need not give `[""]` |
| `Chunker.EmptyTextOneEmptySection` | embed.py:26-37 | the empty text gives exactly `[""]` |
| `Documents.ToDocuments` | embed.py:53-59 | one record per section, in order; record i holds section i, the given name and description, and chunk index i |
| `Documents.BuildDocuments` | embed.py:50-59 | the records are those of the sections for chunk size 1000; there is at least one, and they are numbered 0, 1, … with the same name and description |

## Left out

- `pdf_to_text` (embed.py:10-22): an HTTP download and PDF parsing in third-party libraries. Its only local behaviour is to return an empty string on any exception.
- The rest of `embed_text_in_chromadb` (embed.py:40-49, 61-71). This covers loading the API key, setting the environment, constructing the embedding model, and persisting through `Chroma.from_documents`. All of it is I/O and foreign calls.
- The `__main__` block (embed.py:73-80): script plumbing.
- agent.py: the chat class is configuration plus calls to a hosted embedding model, a vector search and a chat model. Its local glue is a one-line context join and prompt concatenation. Its session map is a get-or-create whose values are never used.
- Python strings that hold lone surrogate code points: a Dafny `char` is a Unicode scalar value, so such strings cannot be represented.
- `chunk_size` is an integer. Python would also accept a float, which the model does not cover.
- The document record is a plain value of content, name, description and chunk index. The LangChain `Document` class and its metadata dictionary are not part of this model.
