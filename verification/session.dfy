/** The session state machine of the script (app.py:13-25, 51-104). Streamlit re-runs the
    whole script on every interaction: it stops at once when the API key is missing,
    fills in absent session keys, indexes the uploaded CV (the uploader keeps its file,
    so this happens on every run that has one), and, when the button was pressed, gates
    the generation request. The vector store, the embedding model, the language model and
    similarity search are outside this model: a store is the list of texts it was built
    from, and search is a function given by the caller. */
module Session {
  import opened Wrappers
  import opened Strings
  import Chunker
  import Extractor
  import Prompt

  /** The Groq model the QA chain is built on. */
  const ModelName: string := "llama-3.1-8b-instant"

  /** The sampling temperature of the QA chain. */
  const Temperature: real := 0.3

  /** How many documents the chain's retriever fetches. */
  const ChainTopK: nat := 4

  /** How many documents the generate branch asks `similarity_search` for. */
  const SearchTopK: nat := 2

  /** A Chroma store, known by the chunk texts it was built from. */
  datatype VectorStore = VectorStore(texts: seq<string>)

  /** A RetrievalQA chain: a language model answering over a store's retriever. */
  datatype QaChain = QaChain(store: VectorStore, modelName: string, temperature: real, topK: nat)

  /** The three session keys once they are set. */
  datatype State = State(cvLoaded: bool, vectorstore: Option<VectorStore>, qaChain: Option<QaChain>)

  /** The session keys as the script finds them: each may be absent (`None`). */
  datatype StoredState = StoredState(
    vectorstore: Option<Option<VectorStore>>,
    qaChain: Option<Option<QaChain>>,
    cvLoaded: Option<bool>)

  /** A session in which nothing has been set yet. */
  const EmptyStore: StoredState := StoredState(None, None, None)

  /** `Build_vectorstore`: the store over the chunks of the CV text. It never holds zero
      texts; a blank CV is stored whole, and any other CV as its stripped, non-empty
      paragraphs. */
  function BuildVectorstore(cvText: string): (r: VectorStore)
    ensures |r.texts| >= 1
    ensures AllSpace(cvText) ==> r.texts == [cvText]
    ensures !AllSpace(cvText) ==>
      forall k :: 0 <= k < |r.texts| ==> r.texts[k] != [] && Strip(r.texts[k]) == r.texts[k]
  {
    Chunker.ChunkFallback(cvText);
    if AllSpace(cvText) then VectorStore(Chunker.Chunk(cvText))
    else
      Chunker.ChunksStripped(cvText);
      VectorStore(Chunker.Chunk(cvText))
  }

  /** `build_qa_chain`: the fixed model configuration over the store's retriever. */
  function BuildQaChain(store: VectorStore): (c: QaChain)
    ensures c.store == store
    ensures c.modelName == ModelName && c.temperature == Temperature && c.topK == ChainTopK
  {
    QaChain(store, ModelName, Temperature, ChainTopK)
  }

  /** The keys as the script leaves them after a run. */
  function Save(s: State): StoredState {
    StoredState(Some(s.vectorstore), Some(s.qaChain), Some(s.cvLoaded))
  }

  /** Lines 57-62: every absent key gets its default, and a present key keeps its value,
      so a saved session comes back unchanged on the next run. */
  function Init(stored: StoredState): (s: State)
    ensures stored == EmptyStore ==> s == State(false, None, None)
    ensures stored.vectorstore.Some? && stored.qaChain.Some? && stored.cvLoaded.Some? ==>
      Save(s) == stored
  {
    State(stored.cvLoaded.GetOr(false), stored.vectorstore.GetOr(None), stored.qaChain.GetOr(None))
  }

  /** The shape every state the script produces has: either nothing is loaded and there is
      no index, or a CV is loaded and its store and the chain over that store are both
      set. */
  predicate Consistent(s: State) {
    if s.cvLoaded then
      s.vectorstore.Some? && s.qaChain.Some? && s.qaChain.value.store == s.vectorstore.value
    else
      s.vectorstore.None? && s.qaChain.None?
  }

  /** What an upload reported. */
  datatype UploadStatus = Indexed | Unreadable

  /** The state after an upload together with what it reported. */
  datatype UploadResult = UploadResult(state: State, status: UploadStatus)

  /** Lines 69-77: a blank text is rejected and the whole state is kept, a stale index
      from an earlier upload included; otherwise a fresh store and chain over the text's
      chunks replace the old ones and the CV is marked loaded. */
  function Upload(s: State, cvText: string): (r: UploadResult)
    ensures r.status == Unreadable <==> AllSpace(cvText)
    ensures r.status == Unreadable ==> r.state == s
    ensures r.status == Indexed ==>
      && r.state.cvLoaded
      && Consistent(r.state)
      && r.state.vectorstore == Some(VectorStore(Chunker.Chunk(cvText)))
    ensures s.cvLoaded ==> r.state.cvLoaded
    ensures Consistent(s) ==> Consistent(r.state)
  {
    if Strip(cvText) == [] then
      UploadResult(s, Unreadable)
    else
      var store := BuildVectorstore(cvText);
      var chain := BuildQaChain(store);
      UploadResult(State(true, Some(store), Some(chain)), Indexed)
  }

  /** The outcome of pressing the generate button. */
  datatype Gate =
    | NotLoaded
    | NoJobDescription
    | IndexUnavailable
    | Proceed(store: VectorStore, chain: QaChain)

  /** Lines 92-102: retrieval goes ahead only with a loaded CV, a non-blank job
      description and both a store and a chain; otherwise the first failing check, in that
      order, is reported. */
  function Generate(s: State, jobDesc: string): (g: Gate)
    ensures g.Proceed? <==>
      s.cvLoaded && !AllSpace(jobDesc) && s.vectorstore.Some? && s.qaChain.Some?
    ensures g.Proceed? ==> s.vectorstore == Some(g.store) && s.qaChain == Some(g.chain)
    ensures !s.cvLoaded ==> g == NotLoaded
    ensures s.cvLoaded && AllSpace(jobDesc) ==> g == NoJobDescription
    ensures g == IndexUnavailable <==>
      s.cvLoaded && !AllSpace(jobDesc) && (s.vectorstore.None? || s.qaChain.None?)
  {
    if !s.cvLoaded then NotLoaded
    else if Strip(jobDesc) == [] then NoJobDescription
    else
      match (s.vectorstore, s.qaChain)
      case (Some(store), Some(chain)) => Proceed(store, chain)
      case _ => IndexUnavailable
  }

  /** In a consistent state the missing-index error cannot occur. */
  lemma ConsistentNeverUnavailable(s: State, jobDesc: string)
    requires Consistent(s)
    ensures Generate(s, jobDesc) != IndexUnavailable
    ensures s.cvLoaded && !AllSpace(jobDesc) ==> Generate(s, jobDesc).Proceed?
  {
  }

  /** What the user has done when the script runs: the file in the uploader, if any, the
      job description in the text area, and whether the button was pressed. */
  datatype Interaction = Interaction(
    upload: Option<Extractor.UploadedFile>,
    jobDesc: string,
    generateClicked: bool)

  /** `qa_chain.invoke({"query": prompt})`. */
  datatype Request = Request(chain: QaChain, query: string)

  /** One run of the script: it halts at the key check, or it leaves a state, the upload's
      report, the button's outcome and the request made of the chain. */
  datatype Run =
    | Halted
    | Ran(state: State, uploadStatus: Option<UploadStatus>, gate: Option<Gate>,
          request: Option<Request>)

  /** The state after the upload part of a run. */
  function AfterUpload(s: State, upload: Option<Extractor.UploadedFile>): State {
    match upload
    case None => s
    case Some(file) => Upload(s, Extractor.TextExtract(file)).state
  }

  /** The request the generate branch makes once retrieval may go ahead:
      `similarity_search(job_desc, k=2)` on the store (`search` stands for it), the
      context of the documents found, and the prompt around it. */
  function MakeRequest(store: VectorStore, chain: QaChain, jobDesc: string,
                       search: (VectorStore, string, nat) -> seq<string>): (q: Request)
    ensures q.chain == chain
    ensures Prompt.Parse(q.query, |jobDesc|)
      == Some((jobDesc, Prompt.Context(search(store, jobDesc, SearchTopK))))
    ensures q.query[Prompt.OpeningLength..Prompt.OpeningLength + |jobDesc|] == jobDesc
  {
    var docs := search(store, jobDesc, SearchTopK);
    Prompt.ParseCompose(jobDesc, Prompt.Context(docs));
    Request(chain, Prompt.Compose(jobDesc, Prompt.Context(docs)))
  }

  /** What the upload part of a run reported, if there was a file. */
  function UploadReport(s: State, upload: Option<Extractor.UploadedFile>): Option<UploadStatus> {
    match upload
    case None => None
    case Some(file) => Some(Upload(s, Extractor.TextExtract(file)).status)
  }

  /** The button's outcome and the request made of the chain. */
  datatype Pressed = Pressed(gate: Option<Gate>, request: Option<Request>)

  /** The generate part of a run (lines 92-125) on the state the upload part left. */
  function Press(s: State, jobDesc: string, clicked: bool,
                 search: (VectorStore, string, nat) -> seq<string>): (p: Pressed)
    ensures p.gate.Some? <==> clicked
    ensures p.gate.Some? ==> p.gate.value == Generate(s, jobDesc)
    ensures p.request.Some? <==>
      clicked && s.cvLoaded && !AllSpace(jobDesc) && s.vectorstore.Some? && s.qaChain.Some?
    ensures p.request.Some? ==>
      && s.vectorstore.Some?
      && s.qaChain == Some(p.request.value.chain)
      && p.request.value.query ==
           Prompt.Compose(jobDesc, Prompt.Context(search(s.vectorstore.value, jobDesc, SearchTopK)))
  {
    if !clicked then Pressed(None, None)
    else
      var g := Generate(s, jobDesc);
      match g
      case Proceed(store, chain) =>
        Pressed(Some(g), Some(MakeRequest(store, chain, jobDesc, search)))
      case _ => Pressed(Some(g), None)
  }

  /** A whole run of the script (lines 13-25 and 57-125). */
  function Rerun(keyPresent: bool, stored: StoredState, ui: Interaction,
                 search: (VectorStore, string, nat) -> seq<string>): (r: Run)
    ensures r.Halted? <==> !keyPresent
    ensures r.Ran? ==> r.state == AfterUpload(Init(stored), ui.upload)
    ensures r.Ran? ==> (r.uploadStatus.Some? <==> ui.upload.Some?)
    ensures r.Ran? ==> (r.gate.Some? <==> ui.generateClicked)
    ensures r.Ran? ==> r.gate.Some? ==> r.gate.value == Generate(r.state, ui.jobDesc)
    ensures r.Ran? ==> (r.request.Some? <==> r.gate.Some? && r.gate.value.Proceed?)
    ensures r.Ran? && r.request.Some? ==>
      && r.state.vectorstore.Some?
      && r.state.qaChain == Some(r.request.value.chain)
      && r.request.value.query ==
           Prompt.Compose(ui.jobDesc,
             Prompt.Context(search(r.state.vectorstore.value, ui.jobDesc, SearchTopK)))
  {
    if !keyPresent then Halted
    else
      var s0 := Init(stored);
      var s1 := AfterUpload(s0, ui.upload);
      var p := Press(s1, ui.jobDesc, ui.generateClicked, search);
      Ran(s1, UploadReport(s0, ui.upload), p.gate, p.request)
  }

  /** The state a run leaves behind, with the key present. */
  function Step(s: State, ui: Interaction,
                search: (VectorStore, string, nat) -> seq<string>): State {
    match Rerun(true, Save(s), ui, search)
    case Ran(next, _, _, _) => next
    case Halted => s
  }

  /** The state after a sequence of runs. */
  function Replay(s: State, uis: seq<Interaction>,
                  search: (VectorStore, string, nat) -> seq<string>): State
    decreases |uis|
  {
    if uis == [] then s else Replay(Step(s, uis[0], search), uis[1..], search)
  }

  /** Once a CV is loaded it stays loaded, and every state the runs leave is consistent. */
  lemma {:induction false} ReplayInvariant(s: State, uis: seq<Interaction>,
                                           search: (VectorStore, string, nat) -> seq<string>)
    requires Consistent(s)
    ensures Consistent(Replay(s, uis, search))
    ensures s.cvLoaded ==> Replay(s, uis, search).cvLoaded
    decreases |uis|
  {
    if uis != [] {
      var next := Step(s, uis[0], search);
      assert Init(Save(s)) == s;
      assert Consistent(next) && (s.cvLoaded ==> next.cvLoaded);
      ReplayInvariant(next, uis[1..], search);
    }
  }

  /** From a fresh session, the missing-index error of the generate branch is never
      reported, whatever runs came before. */
  lemma {:induction false} NeverUnavailable(uis: seq<Interaction>, jobDesc: string,
                                            search: (VectorStore, string, nat) -> seq<string>)
    ensures Generate(Replay(Init(EmptyStore), uis, search), jobDesc) != IndexUnavailable
  {
    ReplayInvariant(Init(EmptyStore), uis, search);
    ConsistentNeverUnavailable(Replay(Init(EmptyStore), uis, search), jobDesc);
  }

  /** A blank re-upload keeps the index of the previous CV (the stale index the source
      never clears), so generation still proceeds over the old store. */
  lemma BlankUploadKeepsStaleIndex(s: State, cvText: string, jobDesc: string)
    requires Consistent(s) && s.cvLoaded && AllSpace(cvText) && !AllSpace(jobDesc)
    ensures Generate(Upload(s, cvText).state, jobDesc)
      == Proceed(s.vectorstore.value, s.qaChain.value)
  {
  }

  /** A PDF none of whose pages has text is rejected and leaves the session as it was. */
  lemma TextlessPdfRejected(s: State, file: Extractor.UploadedFile)
    requires file.mediaType == Extractor.PdfMediaType
    requires forall k :: 0 <= k < |file.pageTexts| ==> Extractor.PageText(file.pageTexts[k]) == []
    ensures Upload(s, Extractor.TextExtract(file)) == UploadResult(s, Unreadable)
  {
  }

  /** On a fresh session, a run that uploads a readable CV and presses the button with a
      job description sends the prompt, and the retrieval behind it runs on the store
      built from that CV's chunks: the upload is handled before the button in the same
      run. */
  lemma UploadThenGenerate(file: Extractor.UploadedFile, jobDesc: string,
                           search: (VectorStore, string, nat) -> seq<string>)
    requires !AllSpace(Extractor.TextExtract(file)) && !AllSpace(jobDesc)
    ensures var store := VectorStore(Chunker.Chunk(Extractor.TextExtract(file)));
      Rerun(true, EmptyStore, Interaction(Some(file), jobDesc, true), search).request
        == Some(Request(BuildQaChain(store),
                        Prompt.Compose(jobDesc,
                          Prompt.Context(search(store, jobDesc, SearchTopK)))))
  {
  }

  /** Runs in which the uploader holds no file, or only a file with blank text, leave a
      session without a CV exactly as it was. */
  lemma {:induction false} StaysUnloaded(s: State, uis: seq<Interaction>,
                                         search: (VectorStore, string, nat) -> seq<string>)
    requires !s.cvLoaded
    requires forall i :: 0 <= i < |uis| ==>
      uis[i].upload.None? || AllSpace(Extractor.TextExtract(uis[i].upload.value))
    ensures Replay(s, uis, search) == s
    ensures !Replay(s, uis, search).cvLoaded
    decreases |uis|
  {
    if uis != [] {
      assert Init(Save(s)) == s;
      assert Step(s, uis[0], search) == s;
      assert forall i :: 0 <= i < |uis| - 1 ==> uis[1..][i] == uis[i + 1];
      StaysUnloaded(s, uis[1..], search);
    }
  }

  /** From a fresh session, as long as no run has uploaded a CV with readable text, the
      button reports that no CV is loaded, whatever the job description. */
  lemma NotLoadedUntilReadableUpload(uis: seq<Interaction>, jobDesc: string,
                                     search: (VectorStore, string, nat) -> seq<string>)
    requires forall i :: 0 <= i < |uis| ==>
      uis[i].upload.None? || AllSpace(Extractor.TextExtract(uis[i].upload.value))
    ensures Generate(Replay(Init(EmptyStore), uis, search), jobDesc) == NotLoaded
  {
    StaysUnloaded(Init(EmptyStore), uis, search);
    NotLoadedGate(Replay(Init(EmptyStore), uis, search), jobDesc);
  }

  /** Without a loaded CV the button reports exactly that. */
  lemma NotLoadedGate(s: State, jobDesc: string)
    requires !s.cvLoaded
    ensures Generate(s, jobDesc) == NotLoaded
  {
  }

  /** On a fresh session, pressing the button without a readable upload reports that no
      CV is loaded, whatever the job description. */
  lemma GenerateBeforeUpload(ui: Interaction, search: (VectorStore, string, nat) -> seq<string>)
    requires ui.generateClicked
    requires ui.upload.Some? ==> AllSpace(Extractor.TextExtract(ui.upload.value))
    ensures Rerun(true, EmptyStore, ui, search).gate == Some(NotLoaded)
    ensures Rerun(true, EmptyStore, ui, search).request.None?
  {
  }
}
