/** The chunking step of `Build_vectorstore` (app.py:44-49): split the CV text at every
    `"\n\n"` (an empty line; a line holding only spaces does not count), strip every
    piece, drop the blank ones, and fall back to the whole text when nothing is left. The
    chunks are then handed to the vector store, which is not part of this model. */
module Chunker {
  import opened Strings

  /** The separator the CV text is split on: a line break followed by an empty line. */
  const Separator: string := "\n\n"

  /** `[c.strip() for c in pieces if c.strip()]`. */
  function KeepStripped(pieces: seq<string>): (r: seq<string>)
    ensures |r| <= |pieces|
    ensures forall k :: 0 <= k < |r| ==> r[k] != [] && Trimmed(r[k])
    ensures r == [] <==> forall k :: 0 <= k < |pieces| ==> AllSpace(pieces[k])
  {
    if pieces == [] then []
    else
      var c := Strip(pieces[0]);
      var rest := KeepStripped(pieces[1..]);
      assert (forall k :: 0 <= k < |pieces| ==> AllSpace(pieces[k]))
        <==> AllSpace(pieces[0])
             && forall k :: 0 <= k < |pieces| - 1 ==> AllSpace(pieces[1..][k]) by {
        if AllSpace(pieces[0]) && forall k :: 0 <= k < |pieces| - 1 ==> AllSpace(pieces[1..][k]) {
          forall k | 0 <= k < |pieces| ensures AllSpace(pieces[k]) {
            if k > 0 { assert pieces[k] == pieces[1..][k - 1]; }
          }
        }
      }
      (if c != [] then [c] else []) + rest
  }

  /** The chunk list `Build_vectorstore` hands to the vector store. */
  function Chunk(text: string): (r: seq<string>)
    ensures |r| >= 1
  {
    var kept := KeepStripped(Split(text, Separator));
    if kept == [] then [text] else kept
  }

  /** The separator is whitespace, so a text is blank exactly when all of its pieces are. */
  lemma SplitBlank(text: string)
    ensures AllSpace(text) <==>
      forall k :: 0 <= k < |Split(text, Separator)| ==> AllSpace(Split(text, Separator)[k])
  {
    JoinSplit(text, Separator);
    JoinAllSpace(Split(text, Separator), Separator);
  }

  /** The fallback is taken exactly for whitespace-only text (the empty text included),
      and then the one chunk is the text itself, unstripped. */
  lemma ChunkFallback(text: string)
    ensures KeepStripped(Split(text, Separator)) == [] <==> AllSpace(text)
    ensures AllSpace(text) ==> Chunk(text) == [text]
  {
    SplitBlank(text);
  }

  /** Outside the fallback every chunk is non-empty, already stripped, and free of the
      separator. */
  lemma ChunksStripped(text: string)
    requires !AllSpace(text)
    ensures forall k :: 0 <= k < |Chunk(text)| ==>
      Chunk(text)[k] != [] && Strip(Chunk(text)[k]) == Chunk(text)[k]
      && !Contains(Chunk(text)[k], Separator)
  {
    ChunkFallback(text);
    var r := Chunk(text);
    forall k | 0 <= k < |r|
      ensures r[k] != [] && Strip(r[k]) == r[k] && !Contains(r[k], Separator)
    {
      StripTrimmed(r[k]);
      KeptFree(Split(text, Separator), k);
    }
  }

  /** Every kept chunk is free of the separator when every piece is. */
  lemma {:induction false} KeptFree(pieces: seq<string>, k: nat)
    requires forall j :: 0 <= j < |pieces| ==> !Contains(pieces[j], Separator)
    requires k < |KeepStripped(pieces)|
    ensures !Contains(KeepStripped(pieces)[k], Separator)
    decreases |pieces|
  {
    var c := Strip(pieces[0]);
    StripFree(pieces[0], Separator);
    if c != [] && k == 0 {
    } else {
      var k' := if c != [] then k - 1 else k;
      assert forall j :: 0 <= j < |pieces| - 1 ==> pieces[1..][j] == pieces[j + 1];
      KeptFree(pieces[1..], k');
    }
  }

  /** Text without `"\n\n"` that is not blank gives exactly its stripped self. */
  lemma ChunkWithoutSeparator(text: string)
    requires !Contains(text, Separator) && !AllSpace(text)
    ensures Chunk(text) == [Strip(text)]
  {
    FindAbsent(text, Separator, 0);
    assert text[0..] == text;
    assert Split(text, Separator) == [text];
  }

  /** Filtering distributes over concatenation, so chunks keep the source order. */
  lemma {:induction false} KeepStrippedAppend(a: seq<string>, b: seq<string>)
    ensures KeepStripped(a + b) == KeepStripped(a) + KeepStripped(b)
    decreases |a|
  {
    if a != [] {
      var head := if Strip(a[0]) != [] then [Strip(a[0])] else [];
      assert (a + b)[0] == a[0] && (a + b)[1..] == a[1..] + b;
      assert KeepStripped(a + b) == head + KeepStripped(a[1..] + b);
      KeepStrippedAppend(a[1..], b);
      assert KeepStripped(a) == head + KeepStripped(a[1..]);
      ConcatAssoc(head, KeepStripped(a[1..]), KeepStripped(b));
    } else {
      assert a + b == b;
    }
  }

  /** A single piece is kept, stripped, exactly when it is not blank; with
      `KeepStrippedAppend` this pins the filter down on every list of pieces. */
  lemma KeepStrippedSingle(p: string)
    ensures KeepStripped([p]) == if AllSpace(p) then [] else [Strip(p)]
  {
    assert [p][1..] == [];
  }

  /** A text is kept exactly when it is the strip of some non-blank piece. */
  lemma {:induction false} KeptPieces(pieces: seq<string>, c: string)
    ensures c in KeepStripped(pieces) <==>
      exists k :: 0 <= k < |pieces| && !AllSpace(pieces[k]) && Strip(pieces[k]) == c
    decreases |pieces|
  {
    if pieces != [] {
      var rest := pieces[1..];
      KeptPieces(rest, c);
      if exists k :: 0 <= k < |pieces| && !AllSpace(pieces[k]) && Strip(pieces[k]) == c {
        var k :| 0 <= k < |pieces| && !AllSpace(pieces[k]) && Strip(pieces[k]) == c;
        if k > 0 {
          assert rest[k - 1] == pieces[k];
        }
      }
      if c in KeepStripped(rest) {
        var k :| 0 <= k < |rest| && !AllSpace(rest[k]) && Strip(rest[k]) == c;
        assert pieces[k + 1] == rest[k];
      }
    }
  }

  /** Outside the fallback, the chunks are exactly the stripped non-blank pieces of
      `text.split("\n\n")`. */
  lemma ChunkPieces(text: string, c: string)
    requires !AllSpace(text)
    ensures c in Chunk(text) <==>
      exists k :: 0 <= k < |Split(text, Separator)|
        && !AllSpace(Split(text, Separator)[k]) && Strip(Split(text, Separator)[k]) == c
  {
    ChunkFallback(text);
    KeptPieces(Split(text, Separator), c);
  }

  /** There are at most as many chunks as `text.count("\n\n") + 1`. */
  lemma ChunkCount(text: string)
    ensures |Chunk(text)| <= Count(text, Separator) + 1
  {
    SplitCount(text, Separator);
  }

  /** A trimmed text without `"\n\n"` ends where the first `"\n\n"` of
      `text + "\n\n"` starts. */
  lemma TrimmedCutsCleanly(p: string)
    requires Trimmed(p) && !Contains(p, Separator)
    ensures CutsCleanly(p, Separator)
  {
    var sep := Separator;
    var s := p + sep;
    assert s[|p|..|p| + 2] == sep;
    forall j: nat | j < |p| ensures !OccursAt(s, sep, j) {
      if j + 2 <= |p| {
        assert !OccursAt(p, sep, j);
        assert s[j..j + 2] == p[j..j + 2];
      } else {
        assert s[j] == p[|p| - 1];
        assert s[j..j + 2][0] == s[j];
      }
    }
    FindFirst(s, sep, |p|);
  }

  /** A text without a newline holds no `"\n\n"`. */
  lemma NoNewlineFree(s: string)
    requires forall k :: 0 <= k < |s| ==> s[k] != '\n'
    ensures !Contains(s, Separator)
  {
    forall i: nat | i + 2 <= |s| ensures !OccursAt(s, Separator, i) {
      assert s[i..i + 2][0] != Separator[0];
    }
  }

  /** A list whose texts are non-empty and already stripped passes the filter unchanged. */
  lemma {:induction false} KeepStrippedTrimmed(ps: seq<string>)
    requires forall k :: 0 <= k < |ps| ==> ps[k] != [] && Trimmed(ps[k])
    ensures KeepStripped(ps) == ps
    decreases |ps|
  {
    if ps != [] {
      StripTrimmed(ps[0]);
      KeepStrippedTrimmed(ps[1..]);
      assert ps == [ps[0]] + ps[1..];
    }
  }

  /** Chunking is the inverse of joining paragraphs with `"\n\n"`: paragraphs that are
      non-empty, stripped and free of `"\n\n"` come back one chunk each, in order. */
  lemma ChunkJoin(ps: seq<string>)
    requires |ps| >= 1
    requires forall k :: 0 <= k < |ps| ==>
      ps[k] != [] && Trimmed(ps[k]) && !Contains(ps[k], Separator)
    ensures Chunk(Join(ps, Separator)) == ps
  {
    forall k | 0 <= k < |ps| - 1 ensures CutsCleanly(ps[k], Separator) {
      TrimmedCutsCleanly(ps[k]);
    }
    SplitJoin(ps, Separator);
    KeepStrippedTrimmed(ps);
  }

  /** Two stripped paragraphs without `"\n\n"`, separated by an empty line, give one
      chunk each. */
  lemma TwoParagraphs(a: string, b: string)
    requires a != [] && b != [] && Trimmed(a) && Trimmed(b)
    requires !Contains(a, Separator) && !Contains(b, Separator)
    ensures Chunk(a + Separator + b) == [a, b]
  {
    assert [a, b][1..] == [b];
    assert Join([a, b], Separator) == a + Separator + b;
    ChunkJoin([a, b]);
  }

  /** A concrete two-paragraph CV gives its two paragraphs as chunks. */
  lemma ExampleTwoChunks()
    ensures Chunk("Skilled in Go and distributed systems.\n\nLed a team of 4 engineers.")
      == ["Skilled in Go and distributed systems.", "Led a team of 4 engineers."]
  {
    var a := "Skilled in Go and distributed systems.";
    var b := "Led a team of 4 engineers.";
    assert a + Separator + b
      == "Skilled in Go and distributed systems.\n\nLed a team of 4 engineers.";
    NoNewlineFree(a);
    NoNewlineFree(b);
    TwoParagraphs(a, b);
  }
}
