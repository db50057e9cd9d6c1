# Cold email generator: a Dafny model of its core

The application is a single Streamlit script, `app.py`. It reads a CV upload, which is
either a PDF or plain text, and cuts the text into chunks at every `"\n\n"`. It indexes
those chunks in a Chroma vector store. When the user presses "Generate", it retrieves up
to two chunks closest to the job description and joins them into a context. It sends a prompt
built from a fixed template around the job description and the context to a Groq language
model through a RetrievalQA chain.

This project models the deterministic core of that script and proves properties about it.
It is organised by the parts of the script:

- `wrappers.dfy`, module `Wrappers`: `Option`.
- `strings.dfy`, module `Strings`: the Python string operations the script uses (`strip`,
  `split` and `join`), plus `find` and `count`, which serve to define `split` and to state its
  properties.
  - `str.strip()` uses the whitespace set of `str.isspace`.
  - `str.split(sep)` cuts at the leftmost non-overlapping occurrences.
- `chunker.dfy`, module `Chunker`: the chunking inside `Build_vectorstore` (app.py:44-49).
- `extractor.dfy`, module `Extractor`: `text_extract` (app.py:27-38). The loop over PDF
  pages appears both as a fold (`PdfText`) and as the loop itself (`ExtractPdf`).
- `prompt.dfy`, module `Prompt`: the context join (app.py:105) and the f-string prompt
  template (app.py:107-123). Both the template text and its exact lengths are written out.
- `session.dfy`, module `Session`: one rerun of the script, and sequences of reruns.
  - A run halts when the API key is absent.
  - The three session keys get their defaults.
  - The CV is re-indexed on every run that has a file in the uploader.
  - Pressing the button goes through four gates in order: CV loaded, job description
    present, index available, proceed.
  - `Replay` runs the script over a list of interactions.

The vector store is known only by the chunk texts it was built from. Similarity search is
a function passed in by the caller, called with the store, the query and `k`.

Two behaviours of the script are stated as proved properties rather than changed:

- A blank re-upload does not clear the index of an earlier CV, and generation goes on over
  that stale index (`Session.BlankUploadKeepsStaleIndex`).
- The "CV index not available" branch can never be reached from a fresh session
  (`Session.NeverUnavailable`).

## Model

| member | source | states |
|---|---|---|
| Strings.IsSpaceChars | app.py:46 | `IsSpace`, written with code-point ranges, holds of exactly the 29 characters listed one by one in `SpaceChars`. These are the characters `str.isspace` accepts and `str.strip()` removes. |
| Strings.Strip | app.py:46 | The result is never longer than the input. It starts and ends with a non-whitespace character, or it is empty. It is empty exactly when every character of the input is Python whitespace. |
| Strings.StripUnique | app.py:46 | Take a slice with no whitespace at its ends, surrounded only by whitespace. That slice is the strip of the text. This pins `strip` down independently of how it is computed. |
| Strings.StripIdempotent | app.py:46 | Stripping twice gives the same as stripping once. |
| Strings.StripFree | app.py:46 | Stripping never creates an occurrence of a substring that was not there before. |
| Strings.FindFrom | app.py:46 | Finds the leftmost occurrence of the separator at or after the start position. If none is found, there is no occurrence from that position on. |
| Strings.SplitFrom | app.py:46 | Splitting what follows any start position gives at least one piece, and no piece contains the separator. |
| Strings.Split | app.py:46 | `str.split(sep)` gives at least one piece, and no piece contains the separator. |
| Strings.Join | app.py:105 | For a non-empty list, `sep.join` is as long as the pieces together plus one separator between each two pieces. |
| Strings.JoinSplit | app.py:46 | Joining the pieces of `text.split(sep)` with `sep` gives back the text. |
| Strings.SplitCount | app.py:46 | A split gives exactly `text.count(sep) + 1` pieces. |
| Strings.SplitJoin | app.py:105 | Joining pieces and splitting the result gives back the pieces. This holds when each piece but the last ends where the first separator after it starts, and the last piece holds no separator. |
| Strings.JoinAllSpace | app.py:46 | With a whitespace separator, a join is all whitespace exactly when every piece is. |
| Chunker.KeepStripped | app.py:46 | The stripped, non-blank pieces are non-empty and have no whitespace at their ends. There are no more of them than pieces. None are kept exactly when every piece is blank. |
| Chunker.KeepStrippedAppend | app.py:46 | Filtering distributes over concatenation, so chunks keep the order of the text. |
| Chunker.KeepStrippedSingle | app.py:46 | A single piece gives its strip when it is not blank and nothing when it is. Together with `KeepStrippedAppend`, this fixes the filter on every list. |
| Chunker.KeptPieces | app.py:46 | A text is kept exactly when it is the strip of some non-blank piece. |
| Chunker.ChunkPieces | app.py:46-48 | For a non-blank CV, a text is a chunk exactly when it is the strip of some non-blank piece of `cv_text.split("\n\n")`. |
| Chunker.Chunk | app.py:46-48 | There is always at least one chunk. |
| Chunker.ChunkFallback | app.py:46-48 | The fallback `[cv_text]` is taken exactly when the text is all whitespace, the empty text included. The fallback chunk is then the unstripped text. |
| Chunker.ChunksStripped | app.py:46-48 | For a non-blank text, every chunk is non-empty, equals its own strip and holds no `"\n\n"` (no empty line; a line of spaces may remain). |
| Chunker.ChunkWithoutSeparator | app.py:46-48 | A non-blank text with no `"\n\n"` gives exactly one chunk, `text.strip()`. |
| Chunker.ChunkCount | app.py:46-48 | There are at most `text.count("\n\n") + 1` chunks. |
| Chunker.ChunkJoin | app.py:46-48 | Chunking undoes joining with `"\n\n"`. Non-empty, stripped paragraphs without `"\n\n"` come back one chunk each, in order. |
| Chunker.TwoParagraphs | app.py:46-48 | Two stripped paragraphs without `"\n\n"`, separated by an empty line, give one chunk each, in order. |
| Chunker.ExampleTwoChunks | app.py:46-48 | The two-paragraph CV "Skilled in Go and distributed systems." / "Led a team of 4 engineers." gives exactly those two chunks. |
| Extractor.PdfText | app.py:31-35 | The PDF text is as long as all page texts together plus one newline per page. A PDF with pages yields text that ends with a newline. |
| Extractor.ExtractPdf | app.py:31-35 | The accumulating loop over the pages computes the fold `PdfText`. |
| Extractor.TextExtract | app.py:27-38 | For the PDF media type, the text is blank exactly when every page's text is blank. For any other type, the decoded bytes come back unchanged. |
| Extractor.PdfTextAppend | app.py:31-35 | Extracting two runs of pages is extracting each run and concatenating the results. |
| Extractor.PdfBlank | app.py:31-35 | The PDF text is blank exactly when every page's text, with `None` read as `""`, is blank. |
| Extractor.TextlessPage | app.py:31-35 | A page without text contributes exactly one `"\n"`, wherever it sits among the pages. |
| Extractor.PdfTextless | app.py:31-35 | A PDF without page text extracts to one `"\n"` per page. |
| Prompt.Context | app.py:105 | No documents give the empty context, and one document gives its own text. Otherwise the length is the texts' total length plus two characters per separator. |
| Prompt.Compose | app.py:107-123 | The prompt has a fixed length overhead. The job description sits verbatim at a fixed offset, and the context sits verbatim after it, ending at a fixed distance from the end. |
| Prompt.Parse | app.py:107-123 | Whatever is read back from a prompt composes to that same prompt. |
| Prompt.ParseCompose | app.py:107-123 | Reading a composed prompt back recovers the job description and the context. |
| Prompt.ComposeInjective | app.py:107-123 | Take two job descriptions of equal length. Their prompts are equal only when both the job descriptions and the contexts are. |
| Prompt.ComposeForge | app.py:107-123 | The template does not mark where the job description ends. A job description that contains the CV-highlights header followed by text gives the same prompt as a shorter job description whose context starts with that text. So `ComposeInjective` needs the equal lengths. |
| Prompt.ContextSplitsBack | app.py:105 | A context of stripped texts without `"\n\n"` splits on `"\n\n"` back into those texts. |
| Prompt.ChunksSplitBack | app.py:105 | A context built from all the chunks of a non-blank CV splits back into exactly those chunks. |
| Session.BuildVectorstore | app.py:44-49 | The store never holds zero texts. A blank CV is stored whole. Any other CV is stored as non-empty texts that equal their own strip. |
| Session.Init | app.py:57-62 | A fresh session starts with nothing loaded and no index. A session whose keys are all set comes back unchanged. |
| Session.Upload | app.py:67-77 | The upload is reported unreadable exactly when the text is blank, and the state is then untouched. Otherwise the CV is loaded, and the store over its chunks and the chain over that store are both set. `cv_loaded` never goes back to false, and consistency is kept. |
| Session.Generate | app.py:92-102 | Retrieval proceeds exactly when the CV is loaded, the job description is not blank, and both store and chain are set. It proceeds with that store and chain. Otherwise it reports the first failing check, in source order. |
| Session.ConsistentNeverUnavailable | app.py:98-101 | In a consistent state, the "index not available" error cannot occur. |
| Session.MakeRequest | app.py:104-125 | The request goes to the given chain. Its query reads back, at the job description's length, as exactly that job description and the context of the documents the search returns for it with `k` = 2. The job description sits verbatim right after the template's opening. |
| Session.Press | app.py:92-125 | There is a gate outcome exactly when the button was pressed, and it is `Generate`'s. A request is sent exactly when that outcome is Proceed. The request carries the stored chain and the composed prompt. |
| Session.Rerun | app.py:13-125 | Library calls are taken never to fail. Under that assumption, a run halts exactly when the key is missing. Otherwise it indexes any upload before looking at the button, on the state read back from the session. It gates the button as `Generate` does, and sends a request only on Proceed. |
| Session.ReplayInvariant | app.py:57-77 | Over any sequence of runs, consistency is kept: the store and chain are set together, and only when a CV is loaded. `cv_loaded` is never reset. |
| Session.NeverUnavailable | app.py:92-101 | Start from a fresh session. After any sequence of runs, the "index not available" error is never reported. |
| Session.BlankUploadKeepsStaleIndex | app.py:67-77 | A blank re-upload keeps the previous CV's store and chain, and generation then proceeds over them. |
| Session.TextlessPdfRejected | app.py:31-71 | A PDF none of whose pages has text is rejected, and the session is left exactly as it was. |
| Session.UploadThenGenerate | app.py:67-125 | On a fresh session, a single run that uploads a readable CV and presses the button with a non-blank job description sends the prompt. The retrieval behind that prompt runs on the store built from that CV's chunks. |
| Session.StaysUnloaded | app.py:67-77 | Take a session without a CV. Runs whose uploader is empty or holds only a file with blank text leave it exactly as it was. |
| Session.NotLoadedUntilReadableUpload | app.py:92-94 | From a fresh session, after any runs none of which uploaded a file with readable text, the button reports "upload your CV first". |
| Session.GenerateBeforeUpload | app.py:92-94 | On a fresh session, pressing the button without a readable upload reports "upload your CV first" and sends nothing. |

## Left out

- Streamlit rendering is not modelled. That covers the titles, the spinners, the success and error messages and the page layout. The outcomes the messages report are modelled as the `UploadStatus` and `Gate` values.
- Chroma, the HuggingFace embedding model and its caching (`get_embeddings`) are outside the model. `similarity_search` is an arbitrary function the caller supplies, so no property depends on how it ranks documents. The source asks it for `k` = 2 and gets at most two documents. The model's `search` may return a list of any length. The store is represented by its chunk texts.
- The `as_retriever(search_kwargs={"k": 4})` retriever of the chain is recorded only as the constant `ChainTopK`. What the chain retrieves on its own during `invoke` is not modelled.
- The Groq model, `RetrievalQA.invoke` and the generated email are not modelled. The model stops at the request: the chain and the query it is given.
- The prompt tells the model to keep the email under 180 words, but nothing checks the reply's length. The reply is outside the model, so no property about it is stated. On the input side, `Session.Press` sends a request whatever the lengths of the job description and the context: no length appears among its conditions.
- `PdfReader` page-text extraction and UTF-8 decoding with `errors="ignore"` belong to libraries. Their results are inputs to the model: the page texts, `None` where `extract_text()` returns `None`, and the decoded text.
- `load_dotenv` and `os.getenv` are reduced to the boolean `keyPresent`. An empty key counts as absent, because the script tests `not groq_key`.
- The temperature 0.3 is kept only as a `real` constant of the chain configuration. Nothing computes with it.
- The code splits on exactly `"\n\n"`, not on runs of newlines. Three newlines leave a piece that starts with `"\n"`, and the strip removes it. A line holding only spaces does not separate chunks.
- There is no check for `k` ≤ 0, dimension mismatches or empty indexes, and nothing is retried. The model has none either.
- Failures of the library calls are not modelled. `app.py` has no `try`. `PdfReader`, `extract_text`, `Chroma.from_texts`, `similarity_search` and `qa_chain.invoke` can raise. A raise ends the run with the session unchanged, because lines 75-77 assign only after both builds succeed. A file whose reading raises stays in the uploader, so every later run raises before the button is served. The model takes every library call to succeed.
- The source file has CRLF line endings. Python reads the triple-quoted template with `"\n"` line breaks, and the template constants use `"\n"` accordingly. The template contains the en dash of "2–3" as a single character.
