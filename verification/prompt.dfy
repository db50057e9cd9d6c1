/** The prompt assembly of the generate branch (app.py:104-123): the retrieved chunk texts
    are joined by `"\n\n"` into a context, and the job description and the context are
    spliced into a fixed instruction template. Retrieval itself is outside this model; its
    result arrives as a list of texts. */
module Prompt {
  import opened Wrappers
  import opened Strings
  import Chunker

  /** The separator between retrieved chunks in the context. */
  const ContextSeparator: string := "\n\n"

  /** The indentation every template line carries inside the source's f-string. */
  const Indent: string := "                "

  /** The template up to the job description. */
  const Opening: string :=
    "\n"
    + Indent + "You are writing a cold email for a job application.\n"
    + Indent + "JOB DESCRIPTION:\n"
    + Indent

  /** The template between the job description and the context. */
  const Middle: string :=
    "\n"
    + Indent + "CANDIDATE CV HIGHLIGHTS (only use what is relevant):\n"
    + Indent

  /** The template after the context. The word limit is only text for the language model;
      nothing here counts words. */
  const Instructions: string :=
    "\n"
    + Indent + "Task:\n"
    + Indent + "- Write a concise, personalized cold email for this role.\n"
    + Indent + "- Mention 2–3 specific matches between the CV and the job description.\n"
    + Indent + "- Structure:\n"
    + Indent + "  1) Short subject line\n"
    + Indent + "  2) Greeting\n"
    + Indent + "  3) 2–3 short paragraphs showing fit\n"
    + Indent + "  4) Clear call to action\n"
    + Indent + "  5) Professional sign-off (use a generic name like \"Your Name\").\n"
    + Indent + "Keep it under 180 words. Make it natural and professional.\n"
    + Indent

  /** The lengths of the three template parts. */
  const OpeningLength: nat := 118
  const MiddleLength: nat := 86
  const InstructionsLength: nat := 552

  /** `"\n\n".join(doc.page_content for doc in relevant_docs)`. */
  function Context(texts: seq<string>): (r: string)
    ensures texts == [] ==> r == []
    ensures |texts| == 1 ==> r == texts[0]
    ensures |texts| >= 1 ==> |r| == TotalLength(texts) + 2 * (|texts| - 1)
  {
    Join(texts, ContextSeparator)
  }

  /** The f-string prompt: the job description and the context, verbatim, in that order,
      inside the fixed template. */
  function Compose(jobDesc: string, context: string): (r: string)
    ensures |r| == OpeningLength + |jobDesc| + MiddleLength + |context| + InstructionsLength
    ensures r[OpeningLength..OpeningLength + |jobDesc|] == jobDesc
    ensures r[OpeningLength + |jobDesc| + MiddleLength..|r| - InstructionsLength] == context
  {
    TemplateLengths();
    Splice(Opening, jobDesc, Middle, context, Instructions);
    Opening + jobDesc + Middle + context + Instructions
  }

  /** The template parts have the lengths recorded for them. */
  lemma TemplateLengths()
    ensures |Opening| == OpeningLength && |Middle| == MiddleLength
    ensures |Instructions| == InstructionsLength
  {
  }

  /** The five parts of a concatenation sit at their offsets. */
  lemma Splice(a: string, b: string, c: string, d: string, e: string)
    ensures var r := a + b + c + d + e;
      && r[..|a|] == a
      && r[|a|..|a| + |b|] == b
      && r[|a| + |b|..|a| + |b| + |c|] == c
      && r[|a| + |b| + |c|..|r| - |e|] == d
      && r[|r| - |e|..] == e
  {
  }

  /** Reads a prompt back into its job description (whose length is given) and its
      context, or `None` when the text does not follow the template. */
  function Parse(prompt: string, jobLength: nat): (r: Option<(string, string)>)
    ensures r.Some? ==> Compose(r.value.0, r.value.1) == prompt && |r.value.0| == jobLength
  {
    TemplateLengths();
    var a := OpeningLength;
    var b := a + jobLength;
    var c := b + MiddleLength;
    if |prompt| < c + InstructionsLength then None
    else
      var d := |prompt| - InstructionsLength;
      if prompt[..a] == Opening && prompt[b..c] == Middle && prompt[d..] == Instructions then
        Unsplice(prompt, a, b, c, d);
        Some((prompt[a..b], prompt[c..d]))
      else None
  }

  /** A string is the concatenation of the slices between its cut points. */
  lemma Unsplice(s: string, a: nat, b: nat, c: nat, d: nat)
    requires a <= b <= c <= d <= |s|
    ensures s == s[..a] + s[a..b] + s[b..c] + s[c..d] + s[d..]
  {
  }

  /** Parsing a composed prompt recovers what was spliced in. */
  lemma ParseCompose(jobDesc: string, context: string)
    ensures Parse(Compose(jobDesc, context), |jobDesc|) == Some((jobDesc, context))
  {
    TemplateLengths();
    Splice(Opening, jobDesc, Middle, context, Instructions);
  }

  /** Two prompts with job descriptions of equal length are equal only when both the job
      descriptions and the contexts are. The equal lengths are needed: see
      `ComposeForge`. */
  lemma ComposeInjective(j1: string, c1: string, j2: string, c2: string)
    requires |j1| == |j2| && Compose(j1, c1) == Compose(j2, c2)
    ensures j1 == j2 && c1 == c2
  {
    ParseCompose(j1, c1);
    ParseCompose(j2, c2);
  }

  /** The template does not mark where the job description ends: a job description that
      carries the CV-highlights header followed by text gives the same prompt as a
      shorter job description whose context starts with that text. */
  lemma ComposeForge(x: string, y: string, z: string)
    ensures Compose(x + Middle + y, z) == Compose(x, y + Middle + z)
  {
    Regroup(Opening, x, Middle, y, z, Instructions);
  }

  /** Moving the boundaries of a five-part concatenation leaves the whole unchanged. */
  lemma Regroup(o: string, x: string, m: string, y: string, z: string, e: string)
    ensures o + (x + m + y) + m + z + e == o + x + m + (y + m + z) + e
  {
  }

  /** Splitting the context on `"\n\n"` gives back the retrieved texts, as long as each
      is stripped and holds no `"\n\n"`, as every chunk of a non-blank CV is. */
  lemma ContextSplitsBack(texts: seq<string>)
    requires |texts| >= 1
    requires forall k :: 0 <= k < |texts| ==>
      Trimmed(texts[k]) && !Contains(texts[k], ContextSeparator)
    ensures Split(Context(texts), ContextSeparator) == texts
  {
    forall k | 0 <= k < |texts| - 1 ensures CutsCleanly(texts[k], ContextSeparator) {
      Chunker.TrimmedCutsCleanly(texts[k]);
    }
    SplitJoin(texts, ContextSeparator);
  }

  /** When every chunk of a non-blank CV is retrieved, the context splits back into
      exactly those chunks. */
  lemma ChunksSplitBack(text: string)
    requires !AllSpace(text)
    ensures Split(Context(Chunker.Chunk(text)), ContextSeparator) == Chunker.Chunk(text)
  {
    var cs := Chunker.Chunk(text);
    Chunker.ChunksStripped(text);
    forall k | 0 <= k < |cs| ensures Trimmed(cs[k]) && !Contains(cs[k], ContextSeparator) {
      assert Strip(cs[k]) == cs[k];
    }
    ContextSplitsBack(cs);
  }
}
