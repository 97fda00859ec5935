/** The adapter's consumption of the provider's response stream
    (services/geminiService.ts, the `for await` loop and what follows it).
    The remote stream is an input: the chunks it delivers, then whether it
    ran out normally or broke off. Opening the session failing is a stream
    that breaks off before its first chunk. */
module Stream {
  import opened Types
  import Dedup

  /** A chunk's `web` citation entry; either field may be missing. */
  datatype WebRef = WebRef(title: Option<string>, uri: Option<string>)

  /** One entry of a chunk's grounding list. */
  datatype GroundingChunk = GroundingChunk(web: Option<WebRef>)

  /** One streamed response: its text delta, if any, and its first
      candidate's grounding list, if it has grounding metadata. */
  datatype Chunk = Chunk(text: Option<string>, grounding: Option<seq<GroundingChunk>>)

  datatype StreamEnd = Exhausted | Broken

  datatype ResponseStream = ResponseStream(chunks: seq<Chunk>, end: StreamEnd)

  /** What a successful turn returns: the whole text and the unique sources. */
  datatype Reply = Reply(text: string, groundingSources: seq<GroundingSource>)

  /** JavaScript truthiness of an optional string: present and non-empty. */
  predicate Truthy(s: Option<string>)
  {
    s.Some? && s.value != ""
  }

  /** The source an entry contributes when both its uri and title are truthy. */
  predicate IsCitable(g: GroundingChunk)
  {
    g.web.Some? && Truthy(g.web.value.uri) && Truthy(g.web.value.title)
  }

  /** The sources collected from one grounding list, in order. */
  function CitedSources(gs: seq<GroundingChunk>): seq<GroundingSource>
    decreases |gs|
  {
    if gs == [] then []
    else
      var last := gs[|gs| - 1];
      CitedSources(gs[..|gs| - 1])
        + if IsCitable(last) then [GroundingSource(last.web.value.title.value, last.web.value.uri.value)] else []
  }

  /** Exactly the entries carrying a truthy title and uri are collected. */
  lemma {:induction false} CitedSourcesComplete(gs: seq<GroundingChunk>, x: GroundingSource)
    ensures x in CitedSources(gs) <==>
              x.title != "" && x.uri != "" && GroundingChunk(Some(WebRef(Some(x.title), Some(x.uri)))) in gs
    decreases |gs|
  {
    if gs != [] {
      var init, last := gs[..|gs| - 1], gs[|gs| - 1];
      CitedSourcesComplete(init, x);
      assert gs == init + [last];
    }
  }

  /** A chunk's sources: none without grounding metadata. */
  function ChunkSources(c: Chunk): seq<GroundingSource>
  {
    match c.grounding
    case None => []
    case Some(gs) => CitedSources(gs)
  }

  /** All sources collected from a stream, in stream order, duplicates kept. */
  function Collected(cs: seq<Chunk>): seq<GroundingSource>
    decreases |cs|
  {
    if cs == [] then [] else Collected(cs[..|cs| - 1]) + ChunkSources(cs[|cs| - 1])
  }

  /** A source is collected from a stream exactly when some chunk of it
      with grounding metadata cites it. */
  lemma {:induction false} CollectedFromChunks(cs: seq<Chunk>, x: GroundingSource)
    ensures x in Collected(cs) <==> exists c :: c in cs && x in ChunkSources(c)
    decreases |cs|
  {
    if cs != [] {
      var init, last := cs[..|cs| - 1], cs[|cs| - 1];
      CollectedFromChunks(init, x);
      assert cs == init + [last];
      assert forall c :: c in cs <==> c in init || c == last;
    }
  }

  /** The delta a chunk reports to `onChunk`: its text when truthy. */
  function ChunkDelta(c: Chunk): seq<string>
  {
    if Truthy(c.text) then [c.text.value] else []
  }

  /** The deltas of a stream, in stream order. */
  function Deltas(cs: seq<Chunk>): seq<string>
    decreases |cs|
  {
    if cs == [] then [] else Deltas(cs[..|cs| - 1]) + ChunkDelta(cs[|cs| - 1])
  }

  /** There are no more deltas than chunks, no delta is empty, and every
      delta is the text of some chunk. */
  lemma {:induction false} DeltasAreChunkTexts(cs: seq<Chunk>)
    ensures |Deltas(cs)| <= |cs|
    ensures forall k :: 0 <= k < |Deltas(cs)| ==> Deltas(cs)[k] != ""
    ensures forall d :: d in Deltas(cs) ==> exists i :: 0 <= i < |cs| && cs[i].text == Some(d)
    decreases |cs|
  {
    if cs != [] {
      var init := cs[..|cs| - 1];
      DeltasAreChunkTexts(init);
      forall d | d in Deltas(cs)
        ensures exists i :: 0 <= i < |cs| && cs[i].text == Some(d)
      {
        if d in Deltas(init) {
          var i :| 0 <= i < |init| && init[i].text == Some(d);
          assert cs[i] == init[i];
        } else {
          assert cs[|cs| - 1].text == Some(d);
        }
      }
    }
  }

  /** The concatenation of a list of strings, in order. */
  function Concat(ss: seq<string>): string
    decreases |ss|
  {
    if ss == [] then "" else Concat(ss[..|ss| - 1]) + ss[|ss| - 1]
  }

  lemma {:induction false} ConcatAppend(a: seq<string>, b: seq<string>)
    ensures Concat(a + b) == Concat(a) + Concat(b)
    decreases |b|
  {
    if b == [] {
      assert a + b == a;
    } else {
      var b', x := b[..|b| - 1], b[|b| - 1];
      ConcatAppend(a, b');
      assert (a + b)[..|a + b| - 1] == a + b';
    }
  }

  /** Folding the deltas over a split stream gives the deltas of each part. */
  lemma {:induction false} DeltasAppend(a: seq<Chunk>, b: seq<Chunk>)
    ensures Deltas(a + b) == Deltas(a) + Deltas(b)
    decreases |b|
  {
    if b == [] {
      assert a + b == a;
    } else {
      DeltasAppend(a, b[..|b| - 1]);
      assert (a + b)[..|a + b| - 1] == a + b[..|b| - 1];
    }
  }

  /** A chunk yields a delta exactly when its text is non-empty, so the
      number of deltas is the number of chunks with non-empty text. */
  lemma {:induction false} DeltaPerTextChunk(cs: seq<Chunk>, c: Chunk)
    ensures Deltas(cs + [c]) == Deltas(cs) + (if c.text.Some? && c.text.value != "" then [c.text.value] else [])
  {
    assert (cs + [c])[..|cs|] == cs;
  }

  /** Chunks without grounding metadata contribute no sources. */
  lemma {:induction false} UngroundedChunkAddsNothing(cs: seq<Chunk>, c: Chunk)
    requires c.grounding.None?
    ensures Collected(cs + [c]) == Collected(cs)
  {
    assert (cs + [c])[..|cs|] == cs;
  }

  /** One more chunk extends the deltas and the collected sources by its own. */
  lemma FoldStep(cs: seq<Chunk>, i: nat)
    requires i < |cs|
    ensures Deltas(cs[..i + 1]) == Deltas(cs[..i]) + ChunkDelta(cs[i])
    ensures Collected(cs[..i + 1]) == Collected(cs[..i]) + ChunkSources(cs[i])
  {
    assert cs[..i + 1][..i] == cs[..i];
  }

  /** The `for await` loop followed by `uniqueSources`. `onChunk` receives
      `emitted`, one delta per chunk with non-empty text, in stream order,
      and is never called with an empty string; deltas already emitted stay
      emitted when the stream breaks. On success the text is exactly the
      concatenation of the emitted deltas and the sources are the collected
      ones deduplicated by uri. */
  method ConsumeStream(stream: ResponseStream) returns (outcome: Result<Reply>, emitted: seq<string>)
    ensures emitted == Deltas(stream.chunks)
    ensures forall k :: 0 <= k < |emitted| ==> emitted[k] != ""
    ensures outcome.Success? <==> stream.end == Exhausted
    ensures outcome.Success? ==> outcome.value.text == Concat(emitted)
    ensures outcome.Success? ==> outcome.value.groundingSources == Dedup.UniqueByUri(Collected(stream.chunks))
  {
    var fullText := "";
    var sources: seq<GroundingSource> := [];
    emitted := [];
    var i := 0;
    while i < |stream.chunks|
      invariant 0 <= i <= |stream.chunks|
      invariant emitted == Deltas(stream.chunks[..i])
      invariant fullText == Concat(emitted)
      invariant sources == Collected(stream.chunks[..i])
    {
      var c := stream.chunks[i];
      FoldStep(stream.chunks, i);
      if c.grounding.Some? {
        sources := sources + CitedSources(c.grounding.value);
      }
      if c.text.Some? && c.text.value != "" {
        assert (emitted + [c.text.value])[..|emitted|] == emitted;
        fullText := fullText + c.text.value;
        emitted := emitted + [c.text.value];
      }
      i := i + 1;
    }
    assert stream.chunks[..i] == stream.chunks;
    assert sources == Collected(stream.chunks);
    DeltasAreChunkTexts(stream.chunks);
    if stream.end == Broken {
      return Failure, emitted;
    }
    var unique := Dedup.UniqueByUri(sources);
    outcome := Success(Reply(fullText, unique));
  }

  /** The streaming example: deltas "Sa" and "lom" make "Salom". */
  lemma SalomExample()
    ensures Concat(["Sa", "lom"]) == "Salom"
  {
    assert ["Sa", "lom"][..1] == ["Sa"];
    assert ["Sa"][..0] == [];
  }
}
