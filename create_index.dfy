/**
 * The ingestion script `create_index.py`: make sure the `papers` index exists,
 * keep the papers whose categories meet a fixed allow-list, embed each kept
 * paper's title and abstract, collect the embeddings in a dict keyed by paper
 * id, and upsert every entry of that dict into the index.
 *
 * The embedding service is the function parameter `embed`; the texts sent to
 * it are returned as `requests`, one per call, in call order.
 */
module CreateIndex {
  import opened PyStr
  import opened PyDict
  import opened Pinecone

  /** One parsed line of the metadata snapshot; `categories` is the raw
      space-separated tag string. */
  datatype Paper = Paper(id: string, categories: string, title: string, abstractText: string)

  /** The topical categories a paper must share at least one tag with. */
  const QueryCats: set<string> := {"cs.AI", "cs.CL", "cs.CV", "cs.LG", "cs.NE", "cs.RO"}

  // ---------------------------------------------------------------------------
  // The per-paper filter
  // ---------------------------------------------------------------------------

  /** `set(categories.split(' '))` */
  function Categories(raw: string): set<string> {
    set c | c in Split(raw, ' ')
  }

  /** `not categories.isdisjoint(query_cats)` */
  predicate Kept(p: Paper) {
    !(Categories(p.categories) !! QueryCats)
  }

  /** A paper is kept exactly when one of the allow-listed tags stands in its
      raw category string as a whole space-delimited field (at the start or
      after a space, and at the end or before a space). */
  lemma KeptIffTagField(p: Paper)
    ensures Kept(p) <==> exists tag :: tag in QueryCats && IsField(p.categories, tag, ' ')
  {
    forall tag | tag in QueryCats
      ensures tag in Categories(p.categories) <==> IsField(p.categories, tag, ' ')
    {
      SplitFields(p.categories, tag, ' ');
    }
  }

  /** "cs.AI cs.CV" is kept. */
  lemma KeptTwoTags(p: Paper)
    requires p.categories == "cs.AI cs.CV"
    ensures Kept(p)
  {
    assert p.categories == "cs.AI" + [' '] + "cs.CV";
    SplitAppend("cs.AI", "cs.CV", ' ');
    SplitNoSep("cs.AI", ' ');
    assert "cs.AI" in Split(p.categories, ' ');
    assert "cs.AI" in Categories(p.categories) * QueryCats;
  }

  /** A category string holding a single tag, with no space, is dropped
      exactly when that tag is not on the allow-list. */
  lemma KeptIffSingleTag(p: Paper)
    requires ' ' !in p.categories
    ensures Kept(p) <==> p.categories in QueryCats
  {
    SplitNoSep(p.categories, ' ');
    assert Categories(p.categories) == {p.categories};
  }

  /** "math.CO" is dropped, and so is "cs.AIX", a tag that only begins with
      an allow-listed one. */
  lemma DroppedOtherTags(p: Paper)
    requires p.categories == "math.CO" || p.categories == "cs.AIX"
    ensures !Kept(p)
  {
    assert forall c | c in QueryCats :: |c| == 5;
    KeptIffSingleTag(p);
  }

  /** A doubled space only adds an empty tag: "math.CO  cs.LG" is kept. */
  lemma KeptDoubledSpace(p: Paper)
    requires p.categories == "math.CO  cs.LG"
    ensures Kept(p)
  {
    var rest := "" + [' '] + "cs.LG";
    assert p.categories == "math.CO" + [' '] + rest;
    SplitAppend("math.CO", rest, ' ');
    SplitAppend("", "cs.LG", ' ');
    SplitNoSep("cs.LG", ' ');
    assert "cs.LG" in Split(p.categories, ' ');
    assert "cs.LG" in Categories(p.categories) * QueryCats;
  }

  // ---------------------------------------------------------------------------
  // The text sent to the embedding service
  // ---------------------------------------------------------------------------

  /** `field.strip().replace('\n', ' ')` */
  function CleanField(s: string): string {
    Replace(Strip(s), '\n', ' ')
  }

  /** A cleaned field holds no newline, carries no whitespace at its ends,
      and is as long as the stripped field. */
  lemma CleanFieldShape(s: string)
    ensures '\n' !in CleanField(s)
    ensures Stripped(CleanField(s))
    ensures |CleanField(s)| == |Strip(s)|
  {
    var stripped := Strip(s);
    StripSlice(s);
    ReplaceRemoves(stripped, '\n', ' ');
    ReplaceAt(stripped, '\n', ' ');
  }

  /** Cleaning an already clean field changes nothing. */
  lemma CleanFieldIdempotent(s: string)
    ensures CleanField(CleanField(s)) == CleanField(s)
  {
    var c := CleanField(s);
    CleanFieldShape(s);
    StripStripped(c);
    ReplaceIdempotent(c, '\n', ' ');
  }

  /** A field of whitespace only cleans to the empty string. */
  lemma CleanBlankField(s: string)
    requires AllSpace(s)
    ensures CleanField(s) == ""
  {
    StripAllSpace(s);
  }

  /** `title + ' ' + abstract` over the cleaned fields. */
  function PaperText(p: Paper): string {
    CleanField(p.title) + " " + CleanField(p.abstractText)
  }

  /** The text holds no newline; the cleaned title is followed by exactly the
      one space that joins the two fields, and the cleaned abstract fills the
      rest. */
  lemma PaperTextShape(p: Paper)
    ensures '\n' !in PaperText(p)
    ensures |PaperText(p)| == |Strip(p.title)| + 1 + |Strip(p.abstractText)|
    ensures var n := |Strip(p.title)|;
            PaperText(p)[..n] == CleanField(p.title) && PaperText(p)[n] == ' '
            && PaperText(p)[n + 1..] == CleanField(p.abstractText)
  {
    var title, abstractText := CleanField(p.title), CleanField(p.abstractText);
    CleanFieldShape(p.title);
    CleanFieldShape(p.abstractText);
    var text := title + " " + abstractText;
    assert text == PaperText(p);
    assert text[..|title|] == title && text[|title|] == ' ' && text[|title| + 1..] == abstractText;
    assert '\n' !in text by {
      forall k | 0 <= k < |text| ensures text[k] != '\n' {
        if k < |title| { assert text[k] == title[k]; }
        else if k > |title| { assert text[k] == abstractText[k - |title| - 1]; }
      }
    }
  }

  /** A paper whose abstract is blank is not skipped: its text is the cleaned
      title and one space. */
  lemma BlankAbstractText(p: Paper)
    requires AllSpace(p.abstractText)
    ensures PaperText(p) == CleanField(p.title) + " "
  {
    CleanBlankField(p.abstractText);
  }

  // ---------------------------------------------------------------------------
  // The collection loop, as functions of the papers read so far
  // ---------------------------------------------------------------------------

  /** One iteration of the collection loop: a kept paper's embedding is
      stored under its id, a dropped paper leaves the dict as it was. */
  function CollectStep(d: Dict<string, Vector>, p: Paper, embed: string -> Vector): (r: Dict<string, Vector>)
    requires d.Valid()
    ensures r.Valid()
  {
    if Kept(p) then SetItem(d, p.id, embed(PaperText(p))) else d
  }

  /** The `embeddings` dict after the loop has gone through `papers`. */
  function Collected(papers: seq<Paper>, embed: string -> Vector): (d: Dict<string, Vector>)
    ensures d.Valid()
    decreases |papers|
  {
    if papers == [] then Empty()
    else CollectStep(Collected(papers[..|papers| - 1], embed), papers[|papers| - 1], embed)
  }

  /** The texts one iteration of the loop sends to the embedding service. */
  function RequestStep(p: Paper): seq<string> {
    if Kept(p) then [PaperText(p)] else []
  }

  /** The texts sent to the embedding service while going through `papers`. */
  function EmbeddingRequests(papers: seq<Paper>): (requests: seq<string>)
    decreases |papers|
  {
    if papers == [] then []
    else EmbeddingRequests(papers[..|papers| - 1]) + RequestStep(papers[|papers| - 1])
  }

  /** The ids of the kept papers. */
  ghost function KeptIds(papers: seq<Paper>): set<string> {
    set i | 0 <= i < |papers| && Kept(papers[i]) :: papers[i].id
  }

  /** The papers that pass the filter, in input order. */
  function KeptPapers(papers: seq<Paper>): (kept: seq<Paper>)
    ensures forall q :: q in kept <==> q in papers && Kept(q)
    decreases |papers|
  {
    if papers == [] then []
    else
      var prev := KeptPapers(papers[..|papers| - 1]);
      var p := papers[|papers| - 1];
      assert papers == papers[..|papers| - 1] + [p];
      if Kept(p) then prev + [p] else prev
  }

  /** Exactly one embedding request per kept paper, in input order, carrying
      that paper's text; a dropped paper triggers none. */
  lemma {:induction false} RequestsPerKeptPaper(papers: seq<Paper>)
    ensures |EmbeddingRequests(papers)| == |KeptPapers(papers)|
    ensures forall k :: 0 <= k < |KeptPapers(papers)| ==>
              EmbeddingRequests(papers)[k] == PaperText(KeptPapers(papers)[k])
    decreases |papers|
  {
    if papers != [] {
      RequestsPerKeptPaper(papers[..|papers| - 1]);
    }
  }

  /** After the loop the dict's keys are exactly the ids of the kept papers. */
  lemma {:induction false} CollectedKeys(papers: seq<Paper>, embed: string -> Vector)
    ensures Collected(papers, embed).entries.Keys == KeptIds(papers)
    decreases |papers|
  {
    if papers != [] {
      var init := papers[..|papers| - 1];
      CollectedKeys(init, embed);
      var p := papers[|papers| - 1];
      assert forall i :: 0 <= i < |init| ==> init[i] == papers[i];
      if Kept(p) {
        assert KeptIds(papers) == KeptIds(init) + {p.id};
      } else {
        assert KeptIds(papers) == KeptIds(init);
      }
    }
  }

  /** Last write wins: a kept paper that no later kept paper shares its id
      with decides the embedding stored under that id. */
  lemma {:induction false} CollectedLastWrite(papers: seq<Paper>, embed: string -> Vector, i: int)
    requires 0 <= i < |papers| && Kept(papers[i])
    requires forall j :: i < j < |papers| && Kept(papers[j]) ==> papers[j].id != papers[i].id
    ensures papers[i].id in Collected(papers, embed).entries
    ensures Collected(papers, embed).entries[papers[i].id] == embed(PaperText(papers[i]))
    decreases |papers|
  {
    var init, last := papers[..|papers| - 1], papers[|papers| - 1];
    assert papers == init + [last];
    CollectedSnoc(init, last, embed);
    if i < |papers| - 1 {
      assert init[i] == papers[i];
      assert forall j :: i < j < |init| ==> init[j] == papers[j];
      CollectedLastWrite(init, embed, i);
    }
  }

  /** Reading one more paper is one more step of the loop. */
  lemma CollectedSnoc(papers: seq<Paper>, p: Paper, embed: string -> Vector)
    ensures Collected(papers + [p], embed) == CollectStep(Collected(papers, embed), p, embed)
  {
    assert (papers + [p])[..|papers|] == papers;
  }

  /** Reading one more paper adds that iteration's requests. */
  lemma RequestsSnoc(papers: seq<Paper>, p: Paper)
    ensures EmbeddingRequests(papers + [p]) == EmbeddingRequests(papers) + RequestStep(p)
  {
    assert (papers + [p])[..|papers|] == papers;
  }

  /** Going on through more papers never removes an entry and never moves a
      key: the map only grows or overwrites. */
  lemma {:induction false} CollectedGrows(papers: seq<Paper>, more: seq<Paper>, embed: string -> Vector)
    ensures Collected(papers, embed).entries.Keys <= Collected(papers + more, embed).entries.Keys
    ensures var before, after := Collected(papers, embed).keys, Collected(papers + more, embed).keys;
            |before| <= |after| && after[..|before|] == before
    decreases |more|
  {
    if more == [] {
      assert papers + more == papers;
    } else {
      var init, last := more[..|more| - 1], more[|more| - 1];
      CollectedGrows(papers, init, embed);
      assert papers + more == (papers + init) + [last];
      CollectedSnoc(papers + init, last, embed);
    }
  }

  /** A dropped paper, wherever it stands in the input, adds no entry. */
  lemma {:induction false} DroppedPaperAddsNoEntry(before: seq<Paper>, p: Paper, after: seq<Paper>, embed: string -> Vector)
    requires !Kept(p)
    ensures Collected(before + [p] + after, embed) == Collected(before + after, embed)
    decreases |after|
  {
    if after == [] {
      assert before + [p] + after == before + [p] && before + after == before;
      CollectedSnoc(before, p, embed);
    } else {
      var init, last := after[..|after| - 1], after[|after| - 1];
      DroppedPaperAddsNoEntry(before, p, init, embed);
      assert before + [p] + after == (before + [p] + init) + [last];
      assert before + after == (before + init) + [last];
      CollectedSnoc(before + [p] + init, last, embed);
      CollectedSnoc(before + init, last, embed);
    }
  }

  /** A dropped paper, wherever it stands in the input, triggers no embedding
      request. */
  lemma {:induction false} DroppedPaperSendsNoRequest(before: seq<Paper>, p: Paper, after: seq<Paper>)
    requires !Kept(p)
    ensures EmbeddingRequests(before + [p] + after) == EmbeddingRequests(before + after)
    decreases |after|
  {
    if after == [] {
      assert before + [p] + after == before + [p] && before + after == before;
      RequestsSnoc(before, p);
    } else {
      var init, last := after[..|after| - 1], after[|after| - 1];
      var with, without := before + [p] + init, before + init;
      assert before + [p] + after == with + [last];
      assert before + after == without + [last];
      calc {
        EmbeddingRequests(with + [last]);
        { RequestsSnoc(with, last); }
        EmbeddingRequests(with) + RequestStep(last);
        { DroppedPaperSendsNoRequest(before, p, init); }
        EmbeddingRequests(without) + RequestStep(last);
        { RequestsSnoc(without, last); }
        EmbeddingRequests(without + [last]);
      }
    }
  }

  /** The loop at create_index.py:32-41, over already parsed papers. */
  method CollectEmbeddings(papers: seq<Paper>, embed: string -> Vector)
    returns (embeddings: Dict<string, Vector>, requests: seq<string>)
    ensures embeddings == Collected(papers, embed)
    ensures requests == EmbeddingRequests(papers)
  {
    embeddings := Empty();
    requests := [];
    var i := 0;
    while i < |papers|
      invariant 0 <= i <= |papers|
      invariant embeddings == Collected(papers[..i], embed)
      invariant requests == EmbeddingRequests(papers[..i])
    {
      var paper := papers[i];
      assert papers[..i + 1][..i] == papers[..i];
      var categories := Categories(paper.categories);
      if !(categories !! QueryCats) {
        var pid := paper.id;
        var title := CleanField(paper.title);
        var abstractText := CleanField(paper.abstractText);
        var text := title + " " + abstractText;
        requests := requests + [text];
        var response := embed(text);
        embeddings := SetItem(embeddings, pid, response);
      }
      i := i + 1;
    }
    assert papers[..i] == papers;
  }

  // ---------------------------------------------------------------------------
  // The upsert loop
  // ---------------------------------------------------------------------------

  /** The calls `for pid, embedding in embeddings.items(): index.upsert(str(pid),
      embedding)` makes, in the dict's order. */
  function UpsertCalls(index: IndexHandle, embeddings: Dict<string, Vector>): (calls: seq<UpsertCall>)
    requires embeddings.Valid()
    ensures |calls| == |embeddings.keys| == |embeddings.entries|
    ensures forall i :: 0 <= i < |calls| ==>
              calls[i] == UpsertCall(index.name, embeddings.keys[i], embeddings.entries[embeddings.keys[i]])
  {
    var items := Items(embeddings);
    seq(|items|, i requires 0 <= i < |items| => UpsertCall(index.name, items[i].0, items[i].1))
  }

  /** One upsert per entry of the dict: every call goes to the index, no id is
      upserted twice, every call carries its entry's embedding, and every
      entry is upserted. */
  lemma OneUpsertPerEntry(index: IndexHandle, embeddings: Dict<string, Vector>)
    requires embeddings.Valid()
    ensures var calls := UpsertCalls(index, embeddings);
      && (forall i :: 0 <= i < |calls| ==>
            calls[i].index == index.name && calls[i].id in embeddings.entries
            && calls[i].values == embeddings.entries[calls[i].id])
      && (forall i, j :: 0 <= i < j < |calls| ==> calls[i].id != calls[j].id)
      && (forall id :: id in embeddings.entries <==> exists i :: 0 <= i < |calls| && calls[i].id == id)
  {
    var calls := UpsertCalls(index, embeddings);
    forall id | id in embeddings.entries ensures exists i :: 0 <= i < |calls| && calls[i].id == id {
      var i :| 0 <= i < |embeddings.keys| && embeddings.keys[i] == id;
      assert calls[i].id == id;
    }
  }

  /** Upserting the dict's calls into an index stores exactly the dict's
      entries. */
  lemma UpsertCallsStore(index: IndexHandle, embeddings: Dict<string, Vector>)
    requires embeddings.Valid()
    ensures Stored(UpsertCalls(index, embeddings), index.name) == embeddings.entries
  {
    OneUpsertPerEntry(index, embeddings);
    StoredDistinct(UpsertCalls(index, embeddings), index.name, embeddings.entries);
  }

  /** After the upsert loop the index holds the dict's entries over whatever
      it held before. */
  lemma UpsertsStoreEntries(log: seq<UpsertCall>, index: IndexHandle, embeddings: Dict<string, Vector>)
    requires embeddings.Valid()
    ensures Stored(log + UpsertCalls(index, embeddings), index.name) == Stored(log, index.name) + embeddings.entries
  {
    StoredAppend(log, UpsertCalls(index, embeddings), index.name);
    UpsertCallsStore(index, embeddings);
  }

  /** Two kept papers with one id give one upsert, carrying the later paper's
      embedding. */
  lemma DuplicateIdOneUpsert(p1: Paper, p2: Paper, embed: string -> Vector, index: IndexHandle)
    requires Kept(p1) && Kept(p2) && p1.id == p2.id
    ensures UpsertCalls(index, Collected([p1, p2], embed)) == [UpsertCall(index.name, p1.id, embed(PaperText(p2)))]
  {
    var id, v1, v2 := p1.id, embed(PaperText(p1)), embed(PaperText(p2));
    assert [p1] == [] + [p1] && [p1, p2] == [p1] + [p2];
    CollectedSnoc([], p1, embed);
    CollectedSnoc([p1], p2, embed);
    SetItemTwice(id, v1, v2);
    var d := Collected([p1, p2], embed);
    assert d == Dict([id], map[id := v2]);
    var calls := UpsertCalls(index, d);
    assert |calls| == 1 && calls[0] == UpsertCall(index.name, id, v2);
  }

  /** How many of `calls` the service accepts before it refuses one for a
      vector whose length is not the index's dimension. The refusal raises,
      so the loop makes no call after it. */
  function AcceptedPrefix(calls: seq<UpsertCall>, dimension: int): (n: nat)
    ensures n <= |calls|
    ensures forall i :: 0 <= i < n ==> |calls[i].values| == dimension
    ensures n < |calls| ==> |calls[n].values| != dimension
    decreases |calls|
  {
    if calls == [] || |calls[0].values| != dimension then 0
    else 1 + AcceptedPrefix(calls[1..], dimension)
  }

  /** Every embedding in the dict has the given dimension. */
  ghost predicate Fits(embeddings: Dict<string, Vector>, dimension: int) {
    forall id :: id in embeddings.entries ==> |embeddings.entries[id]| == dimension
  }

  /** The service accepts every upsert of the dict exactly when every
      embedding in it has the index's dimension. */
  lemma AllUpsertsAccepted(index: IndexHandle, embeddings: Dict<string, Vector>, dimension: int)
    requires embeddings.Valid()
    ensures var calls := UpsertCalls(index, embeddings);
            AcceptedPrefix(calls, dimension) == |calls| <==> Fits(embeddings, dimension)
  {
    var calls := UpsertCalls(index, embeddings);
    var n := AcceptedPrefix(calls, dimension);
    OneUpsertPerEntry(index, embeddings);
    if n == |calls| {
      forall id | id in embeddings.entries ensures |embeddings.entries[id]| == dimension {
        var i :| 0 <= i < |calls| && calls[i].id == id;
      }
    } else {
      assert |embeddings.entries[calls[n].id]| != dimension;
    }
  }

  /** When every embedding fits the index, the loop gets through all the
      upserts and the index holds the dict's entries over its earlier
      records. */
  lemma IngestStored(log: seq<UpsertCall>, index: IndexHandle, embeddings: Dict<string, Vector>, dimension: int)
    requires embeddings.Valid() && Fits(embeddings, dimension)
    ensures var calls := UpsertCalls(index, embeddings);
            && calls[..AcceptedPrefix(calls, dimension)] == calls
            && Stored(log + calls, index.name) == Stored(log, index.name) + embeddings.entries
  {
    var calls := UpsertCalls(index, embeddings);
    AllUpsertsAccepted(index, embeddings, dimension);
    assert calls[..|calls|] == calls;
    UpsertsStoreEntries(log, index, embeddings);
  }

  /** One more call of `calls` extends the log by that call. */
  lemma AppendNext(log: seq<UpsertCall>, calls: seq<UpsertCall>, i: int)
    requires 0 <= i < |calls|
    ensures log + calls[..i + 1] == (log + calls[..i]) + [calls[i]]
  {
    assert calls[..i + 1] == calls[..i] + [calls[i]];
  }

  /** The upsert loop at create_index.py:44-45. It goes through the entries
      in order and stops at the first upsert the service refuses; `ok` tells
      whether it got through all of them. */
  method UpsertAll(client: Client, index: IndexHandle, embeddings: Dict<string, Vector>) returns (ok: bool)
    requires embeddings.Valid()
    requires client.Valid() && index.name in client.indexes
    modifies client
    ensures client.Valid()
    ensures client.indexes == old(client.indexes) && client.created == old(client.created)
    ensures var calls := UpsertCalls(index, embeddings);
            client.upserts == old(client.upserts) + calls[..AcceptedPrefix(calls, client.indexes[index.name].dimension)]
    ensures ok <==> Fits(embeddings, client.indexes[index.name].dimension)
  {
    var items := Items(embeddings);
    ghost var calls := UpsertCalls(index, embeddings);
    ghost var dimension := client.indexes[index.name].dimension;
    ghost var n := AcceptedPrefix(calls, dimension);
    ghost var log := client.upserts;
    AllUpsertsAccepted(index, embeddings, dimension);
    ok := true;
    var i := 0;
    while i < |items|
      invariant 0 <= i <= n
      invariant client.upserts == log + calls[..i]
      invariant client.indexes == old(client.indexes) && client.created == old(client.created)
      invariant client.Valid()
    {
      var (pid, embedding) := items[i];
      assert calls[i] == UpsertCall(index.name, pid, embedding);
      var accepted := client.Upsert(index, pid, embedding);
      if !accepted {
        assert i == n;
        ok := false;
        break;
      }
      AppendNext(log, calls, i);
      i := i + 1;
    }
    assert client.upserts == log + calls[..n];
  }

  // ---------------------------------------------------------------------------
  // get_pinecone_index and main
  // ---------------------------------------------------------------------------

  /** Get-or-create: the index is created only when its name is not listed;
      an existing index is returned as it is, whatever dimension, metric and
      pod type it was created with. */
  method GetPineconeIndex(client: Client, name: string, dimension: int, metric: string, podType: string)
    returns (index: IndexHandle)
    requires client.Valid()
    modifies client
    ensures client.Valid()
    ensures index == IndexHandle(name) && name in client.indexes
    ensures name in old(client.indexes) ==>
              client.indexes == old(client.indexes) && client.created == old(client.created)
    ensures name !in old(client.indexes) ==>
              && client.indexes == old(client.indexes)[name := IndexConfig(dimension, metric, podType)]
              && client.created == old(client.created) + [CreateCall(name, IndexConfig(dimension, metric, podType))]
    ensures client.upserts == old(client.upserts)
  {
    var indexes := client.ListIndexes();
    if name !in indexes {
      client.CreateIndex(name, dimension, metric, podType);
    }
    index := IndexHandle(name);
  }

  /** Asking twice for one name creates at most once, and the second request's
      parameters are never compared with the first's. */
  method GetPineconeIndexTwice(client: Client, name: string, dimension: int, metric: string, podType: string,
                               dimension': int, metric': string, podType': string)
    requires client.Valid()
    modifies client
    ensures client.Valid()
    ensures name in old(client.indexes) ==>
              client.indexes == old(client.indexes) && client.created == old(client.created)
    ensures name !in old(client.indexes) ==>
              && client.indexes == old(client.indexes)[name := IndexConfig(dimension, metric, podType)]
              && client.created == old(client.created) + [CreateCall(name, IndexConfig(dimension, metric, podType))]
    ensures client.upserts == old(client.upserts)
  {
    var first := GetPineconeIndex(client, name, dimension, metric, podType);
    var second := GetPineconeIndex(client, name, dimension', metric', podType');
  }

  /** `main()`: get or create the `papers` index (1536 dimensions, cosine,
      pod type `p1`), embed the kept papers, then upsert every entry. The run
      ends early, with `ok` false, at the first upsert the service refuses for
      a vector whose length is not the index's dimension. */
  method IngestPapers(client: Client, papers: seq<Paper>, embed: string -> Vector)
    returns (requests: seq<string>, ok: bool)
    requires client.Valid()
    modifies client
    ensures client.Valid()
    ensures requests == EmbeddingRequests(papers)
    ensures "papers" in client.indexes
    ensures "papers" in old(client.indexes) ==>
              client.indexes == old(client.indexes) && client.created == old(client.created)
    ensures "papers" !in old(client.indexes) ==>
              && client.indexes == old(client.indexes)["papers" := IndexConfig(1536, "cosine", "p1")]
              && client.created == old(client.created) + [CreateCall("papers", IndexConfig(1536, "cosine", "p1"))]
    ensures var calls := UpsertCalls(IndexHandle("papers"), Collected(papers, embed));
            client.upserts == old(client.upserts) + calls[..AcceptedPrefix(calls, client.indexes["papers"].dimension)]
    ensures ok <==> Fits(Collected(papers, embed), client.indexes["papers"].dimension)
    ensures "papers" !in old(client.indexes) ==> (ok <==> Fits(Collected(papers, embed), 1536))
    ensures ok ==> Stored(client.upserts, "papers") == Stored(old(client.upserts), "papers") + Collected(papers, embed).entries
    ensures ok ==> Stored(client.upserts, "papers").Keys == Stored(old(client.upserts), "papers").Keys + KeptIds(papers)
    ensures ok && "papers" !in old(client.indexes) ==> Stored(client.upserts, "papers") == Collected(papers, embed).entries
    ensures OfDimension(Stored(client.upserts, "papers"), client.indexes["papers"].dimension)
  {
    ghost var log := client.upserts;
    ghost var before := Stored(log, "papers");
    if "papers" !in client.indexes {
      StoredUntouched(log, "papers");
    }
    var index := GetPineconeIndex(client, "papers", 1536, "cosine", "p1");
    var embeddings;
    embeddings, requests := CollectEmbeddings(papers, embed);
    ghost var dimension := client.indexes["papers"].dimension;
    ok := UpsertAll(client, index, embeddings);
    ghost var after := client.upserts;
    if ok {
      IngestStored(log, index, embeddings, dimension);
      CollectedKeys(papers, embed);
    }
    client.StoredFits("papers");
  }
}
