/** The chunker `_split_text_into_chunks` (split, pack, overlap) and the
    per-page record numbering of `extract_and_chunk_pdf`. */
module Chunking {
  import opened Text
  import opened Sentences
  import opened Packing

  /** What the overlap loop adds to `overlap_length` for a run: `len(s) + 1`
      per sentence. */
  function Cost(xs: seq<string>): nat {
    if |xs| == 0 then 0 else Cost(xs[..|xs| - 1]) + |xs[|xs| - 1]| + 1
  }

  /** The overlap sentences taken from the previous chunk's sentences: walk
      backward, keep a sentence while the running cost stays within `budget`,
      and stop at the first one that does not fit. */
  function TakeOverlap(prev: seq<string>, budget: int): (ov: seq<string>)
    ensures |ov| <= |prev| && ov == prev[|prev| - |ov|..]
    ensures |ov| > 0 ==> Cost(ov) <= budget
    ensures |ov| < |prev| ==> Cost(ov) + |prev[|prev| - |ov| - 1]| + 1 > budget
    decreases |prev|
  {
    if |prev| == 0 then []
    else
      var last := prev[|prev| - 1];
      if |last| + 1 <= budget then
        var ov := TakeOverlap(prev[..|prev| - 1], budget - |last| - 1) + [last];
        assert ov[..|ov| - 1] == TakeOverlap(prev[..|prev| - 1], budget - |last| - 1);
        ov
      else []
  }

  /** `' '.join(ov) + ' ' + chunk` when there is something to prepend. */
  function Prefixed(ov: seq<string>, chunk: string): string {
    if |ov| > 0 then Join(ov) + " " + chunk else chunk
  }

  /** Chunk `chunk` with overlap re-derived from the text of the chunk before it. */
  function WithOverlap(prevChunk: string, chunk: string, overlap: int): string {
    Prefixed(TakeOverlap(SplitSentences(prevChunk), overlap), chunk)
  }

  /** The overlap loop of `_split_text_into_chunks`: the first chunk
      unchanged, every later one prefixed with overlap taken from the packed
      chunk before it. */
  function Overlapped(packed: seq<string>, overlap: int): seq<string>
    requires |packed| > 1
  {
    [packed[0]] + seq(|packed| - 1, k requires 0 <= k < |packed| - 1 => WithOverlap(packed[k], packed[k + 1], overlap))
  }

  /** `_split_text_into_chunks(text, chunk_size, chunk_overlap)` */
  function ChunkText(text: string, size: int, overlap: int): seq<string> {
    var sentences := SplitSentences(text);
    if |sentences| == 0 then []
    else if |sentences| == 1 then sentences
    else
      var chunks := JoinEach(PackRuns(sentences, size));
      if |chunks| > 1 then Overlapped(chunks, overlap) else chunks
  }

  /** The runs of sentences behind the chunks of `text`. */
  function Runs(text: string, size: int): seq<seq<string>> {
    PackRuns(SplitSentences(text), size)
  }

  // ---------------------------------------------------------------------------
  // Helpers

  lemma {:induction false} CostJoin(xs: seq<string>)
    requires |xs| > 0
    ensures Cost(xs) == |Join(xs)| + 1
  {
    if |xs| > 1 {
      var init := xs[..|xs| - 1];
      CostJoin(init);
      JoinAppend(init, xs[|xs| - 1]);
      assert init + [xs[|xs| - 1]] == xs;
    }
  }

  lemma WellFormedSlice(s: seq<string>, a: int, b: int)
    requires WellFormed(s) && 0 <= a <= b <= |s|
    ensures WellFormed(s[a..b])
  {
    var t := s[a..b];
    forall i | 0 <= i < |t| ensures IsSentence(t[i]) {
      assert t[i] == s[a + i];
    }
    forall i | 0 <= i < |t| - 1 ensures EndsTerminal(t[i]) {
      assert t[i] == s[a + i];
    }
  }

  /** Every packed run of a well-formed sentence list is itself well formed. */
  lemma {:induction false} PackRunsWellFormed(s: seq<string>, size: int)
    requires WellFormed(s)
    ensures forall k :: 0 <= k < |PackRuns(s, size)| ==> WellFormed(PackRuns(s, size)[k])
    decreases |s|
  {
    if |s| > 0 {
      var n := RunLength(s, size);
      WellFormedSlice(s, 0, n);
      WellFormedSlice(s, n, |s|);
      assert s[n..|s|] == s[n..];
      PackRunsWellFormed(s[n..], size);
      var runs := PackRuns(s, size);
      forall k | 0 <= k < |runs| ensures WellFormed(runs[k]) {
        if k > 0 {
          assert runs[k] == PackRuns(s[n..], size)[k - 1];
        }
      }
    }
  }

  /** The packed chunks of `text`, one per run; a single sentence packs to itself. */
  lemma PackedChunks(text: string, size: int, overlap: int)
    ensures var ss := SplitSentences(text);
      |ss| == 1 ==> JoinEach(PackRuns(ss, size)) == ss
  {
    var ss := SplitSentences(text);
    if |ss| == 1 {
      assert RunLength(ss, size) == 1;
      assert ss[1..] == [];
      assert ss[..1] == ss;
    }
  }

  // ---------------------------------------------------------------------------
  // Properties of the chunker

  /** There are as many output chunks as packed runs, the runs are the sentence
      list cut into consecutive non-empty pieces, and the first chunk is the
      first packed chunk verbatim. One sentence gives one chunk, whatever the
      bound. */
  lemma ChunkTextShape(text: string, size: int, overlap: int)
    ensures var out := ChunkText(text, size, overlap); var runs := Runs(text, size);
      && |out| == |runs|
      && Flatten(runs) == SplitSentences(text)
      && (forall k :: 0 <= k < |runs| ==> |runs[k]| > 0)
      && (|out| > 0 ==> out[0] == Join(runs[0]))
      && (|SplitSentences(text)| == 1 ==> out == SplitSentences(text))
  {
    var ss := SplitSentences(text);
    var runs := Runs(text, size);
    PackRunsPartition(ss, size);
    JoinEachIndex(runs);
    PackedChunks(text, size, overlap);
  }

  /** Each later chunk is its packed chunk, prefixed with the overlap taken from
      the sentences of the previous packed run (not from the previous
      overlapped chunk). */
  lemma ChunkTextOverlap(text: string, size: int, overlap: int)
    ensures var out := ChunkText(text, size, overlap); var runs := Runs(text, size);
      |out| == |runs| &&
      forall k :: 0 < k < |out| ==>
        out[k] == Prefixed(TakeOverlap(runs[k - 1], overlap), Join(runs[k]))
  {
    var ss := SplitSentences(text);
    var runs := Runs(text, size);
    ChunkTextShape(text, size, overlap);
    if |ss| > 1 && |runs| > 1 {
      SplitSentencesWellFormed(text);
      PackRunsWellFormed(ss, size);
      JoinEachIndex(runs);
      assert ChunkText(text, size, overlap) == Overlapped(JoinEach(runs), overlap);
      OverlappedRuns(runs, overlap);
    }
  }

  /** Overlap re-derived from a packed chunk's text is overlap taken from the
      run of sentences behind it. */
  lemma OverlappedRuns(runs: seq<seq<string>>, overlap: int)
    requires |runs| > 1 && forall k :: 0 <= k < |runs| ==> WellFormed(runs[k])
    ensures |JoinEach(runs)| == |runs|
    ensures var out := Overlapped(JoinEach(runs), overlap);
      |out| == |runs| &&
      forall k :: 0 < k < |out| ==>
        out[k] == Prefixed(TakeOverlap(runs[k - 1], overlap), Join(runs[k]))
  {
    JoinEachIndex(runs);
    var packed := JoinEach(runs);
    var out := Overlapped(packed, overlap);
    forall k | 0 < k < |out|
      ensures out[k] == Prefixed(TakeOverlap(runs[k - 1], overlap), Join(runs[k]))
    {
      assert out[k] == WithOverlap(packed[k - 1], packed[k], overlap);
      SplitJoinRoundTrip(runs[k - 1]);
    }
  }

  lemma PrefixedBound(ov: seq<string>, c: string, budget: int)
    requires |ov| > 0 ==> Cost(ov) <= budget
    ensures var r := Prefixed(ov, c);
      && |c| <= |r|
      && r[|r| - |c|..] == c
      && (r == c || |r| <= |c| + budget)
  {
    if |ov| > 0 {
      CostJoin(ov);
    }
  }

  /** Chunk `k` of `out` ends with the packed run `runs[k]` and is either that
      packed chunk or at most `overlap` characters longer. */
  predicate Bounded(out: seq<string>, runs: seq<seq<string>>, overlap: int) {
    |out| == |runs| &&
    forall k :: 0 <= k < |out| ==>
      var packed := Join(runs[k]);
      && |packed| <= |out[k]|
      && out[k][|out[k]| - |packed|..] == packed
      && (out[k] == packed || |out[k]| <= |packed| + overlap)
  }

  /** The bound for any chunk list laid out as the chunker lays it out. */
  lemma LayoutBound(out: seq<string>, runs: seq<seq<string>>, overlap: int)
    requires |out| == |runs| && (|out| > 0 ==> out[0] == Join(runs[0]))
    requires forall k :: 0 < k < |out| ==> out[k] == Prefixed(TakeOverlap(runs[k - 1], overlap), Join(runs[k]))
    ensures Bounded(out, runs, overlap)
  {
    forall k | 0 <= k < |out|
      ensures var packed := Join(runs[k]);
        && |packed| <= |out[k]|
        && out[k][|out[k]| - |packed|..] == packed
        && (out[k] == packed || |out[k]| <= |packed| + overlap)
    {
      if k > 0 {
        PrefixedBound(TakeOverlap(runs[k - 1], overlap), Join(runs[k]), overlap);
      } else {
        PrefixedBound([], Join(runs[k]), overlap);
      }
    }
  }

  /** Every chunk ends with its own packed chunk and is at most `overlap`
      characters longer than it. */
  lemma ChunkTextBound(text: string, size: int, overlap: int)
    ensures Bounded(ChunkText(text, size, overlap), Runs(text, size), overlap)
  {
    var out := ChunkText(text, size, overlap);
    var runs := Runs(text, size);
    ChunkTextShape(text, size, overlap);
    ChunkTextOverlap(text, size, overlap);
    LayoutBound(out, runs, overlap);
  }

  /** Every packed chunk fits `size` unless it is one sentence that alone
      exceeds it. */
  lemma ChunkTextPackedBound(text: string, size: int)
    ensures forall k :: 0 <= k < |Runs(text, size)| ==>
      |Join(Runs(text, size)[k])| <= size
      || (|Runs(text, size)[k]| == 1 && |Runs(text, size)[k][0]| > size)
  {
    PackRunsBound(SplitSentences(text), size);
  }

  /** With no overlap budget no prefix is ever added: the output is exactly the
      packed chunks. */
  lemma ChunkTextNoOverlap(text: string, size: int, overlap: int)
    requires overlap <= 0
    ensures ChunkText(text, size, overlap) == JoinEach(Runs(text, size))
  {
    var out := ChunkText(text, size, overlap);
    var runs := Runs(text, size);
    ChunkTextOverlap(text, size, overlap);
    ChunkTextShape(text, size, overlap);
    JoinEachIndex(runs);
    NoOverlapLayout(out, runs, overlap);
  }

  lemma NoOverlapLayout(out: seq<string>, runs: seq<seq<string>>, overlap: int)
    requires overlap <= 0 && |out| == |runs| && (|out| > 0 ==> out[0] == Join(runs[0]))
    requires forall k :: 0 < k < |out| ==> out[k] == Prefixed(TakeOverlap(runs[k - 1], overlap), Join(runs[k]))
    ensures out == JoinEach(runs)
  {
    JoinEachIndex(runs);
    forall k | 0 < k < |out| ensures out[k] == JoinEach(runs)[k] {
      var ov := TakeOverlap(runs[k - 1], overlap);
      assert |ov| == 0;
    }
  }

  /** Empty or whitespace-only text, and only such text, yields no chunks. */
  lemma ChunkTextEmpty(text: string, size: int, overlap: int)
    ensures ChunkText(text, size, overlap) == [] <==> forall i :: 0 <= i < |text| ==> IsSpace(text[i])
  {
    SplitSentencesEmpty(text);
    ChunkTextShape(text, size, overlap);
  }

  // ---------------------------------------------------------------------------
  // Chunk records, as the page and chunk loops of `extract_and_chunk_pdf` build them

  datatype ChunkRecord = ChunkRecord(text: string, page: nat, fileName: string, chunkIndex: nat)

  /** The text of one PDF file, page by page. */
  datatype PdfText = PdfText(name: string, pages: seq<string>)

  /** `enumerate(page_chunks)` for one page. */
  function PageRecords(fileName: string, page: nat, chunks: seq<string>): seq<ChunkRecord> {
    seq(|chunks|, j requires 0 <= j < |chunks| => ChunkRecord(chunks[j], page, fileName, j))
  }

  /** Records of pages whose chunk lists are `perPage`, the first of which has
      page number `first`. */
  function Number(fileName: string, perPage: seq<seq<string>>, first: nat): seq<ChunkRecord>
    decreases |perPage|
  {
    if |perPage| == 0 then []
    else PageRecords(fileName, first, perPage[0]) + Number(fileName, perPage[1..], first + 1)
  }

  /** The chunk lists of the pages, page by page. */
  function PageChunks(pages: seq<string>, size: int, overlap: int): (perPage: seq<seq<string>>)
    ensures |perPage| == |pages|
  {
    seq(|pages|, p requires 0 <= p < |pages| => ChunkText(pages[p], size, overlap))
  }

  /** The records of one file: `for page_num, page in enumerate(pdf_reader.pages)`. */
  function ChunkFile(file: PdfText, size: int, overlap: int): seq<ChunkRecord> {
    Number(file.name, PageChunks(file.pages, size, overlap), 0)
  }

  /** `extract_and_chunk_pdf` over the files of the folder, in order. */
  function ChunkFiles(files: seq<PdfText>, size: int, overlap: int): seq<ChunkRecord> {
    if |files| == 0 then [] else ChunkFile(files[0], size, overlap) + ChunkFiles(files[1..], size, overlap)
  }

  /** The records that carry page number `p`, in order. */
  function OnPage(recs: seq<ChunkRecord>, p: nat): seq<ChunkRecord> {
    if |recs| == 0 then []
    else (if recs[0].page == p then [recs[0]] else []) + OnPage(recs[1..], p)
  }

  /** (page, chunk_index) strictly increases from `a` to `b`. */
  predicate Before(a: ChunkRecord, b: ChunkRecord) {
    a.page < b.page || (a.page == b.page && a.chunkIndex < b.chunkIndex)
  }

  lemma {:induction false} OnPageAppend(a: seq<ChunkRecord>, b: seq<ChunkRecord>, p: nat)
    ensures OnPage(a + b, p) == OnPage(a, p) + OnPage(b, p)
  {
    if |a| == 0 {
      assert a + b == b;
    } else {
      assert (a + b)[1..] == a[1..] + b;
      OnPageAppend(a[1..], b, p);
    }
  }

  lemma {:induction false} OnPageUniform(recs: seq<ChunkRecord>, q: nat, p: nat)
    requires forall j :: 0 <= j < |recs| ==> recs[j].page == q
    ensures OnPage(recs, p) == if p == q then recs else []
  {
    if |recs| > 0 {
      OnPageUniform(recs[1..], q, p);
    }
  }

  /** Records come in strictly increasing (page, chunk_index) order. */
  predicate Ordered(recs: seq<ChunkRecord>) {
    forall i, j :: 0 <= i < j < |recs| ==> Before(recs[i], recs[j])
  }

  /** Every record names a file of `names`. */
  predicate NamedIn(recs: seq<ChunkRecord>, names: set<string>) {
    forall j :: 0 <= j < |recs| ==> recs[j].fileName in names
  }

  /** Every record's page lies in `[lo, hi)`. */
  predicate PagesIn(recs: seq<ChunkRecord>, lo: nat, hi: nat) {
    forall j :: 0 <= j < |recs| ==> lo <= recs[j].page < hi
  }

  /** One page's records are in chunk order, all name the file and all sit
      on that page. */
  lemma PageRecordsFacts(fileName: string, page: nat, chunks: seq<string>)
    ensures Ordered(PageRecords(fileName, page, chunks))
    ensures NamedIn(PageRecords(fileName, page, chunks), {fileName})
    ensures PagesIn(PageRecords(fileName, page, chunks), page, page + 1)
  {
  }

  /** One record per chunk, record j carrying chunk j with index j; selecting
      page p gives them all when p is their page and none otherwise. */
  lemma PageRecordsOnPage(fileName: string, page: nat, chunks: seq<string>, p: nat)
    ensures OnPage(PageRecords(fileName, page, chunks), p) == if p == page then PageRecords(fileName, page, chunks) else []
    ensures IndexedFromZero(PageRecords(fileName, page, chunks), fileName, page, chunks)
  {
    OnPageUniform(PageRecords(fileName, page, chunks), page, p);
  }

  /** Record j carries chunk j, the page, the file name and chunk index j. */
  predicate IndexedFromZero(records: seq<ChunkRecord>, fileName: string, page: nat, chunks: seq<string>) {
    |records| == |chunks| && forall j :: 0 <= j < |chunks| ==> records[j] == ChunkRecord(chunks[j], page, fileName, j)
  }

  lemma NamedInAppend(a: seq<ChunkRecord>, b: seq<ChunkRecord>, names: set<string>)
    requires NamedIn(a, names) && NamedIn(b, names)
    ensures NamedIn(a + b, names)
  {
    forall j | 0 <= j < |a + b| ensures (a + b)[j].fileName in names {
      if j >= |a| {
        assert (a + b)[j] == b[j - |a|];
      }
    }
  }

  lemma NamedInWiden(a: seq<ChunkRecord>, names: set<string>, more: set<string>)
    requires NamedIn(a, names) && names <= more
    ensures NamedIn(a, more)
  {
  }

  lemma PagesInAppend(a: seq<ChunkRecord>, b: seq<ChunkRecord>, lo: nat, mid: nat, hi: nat)
    requires PagesIn(a, lo, mid) && PagesIn(b, mid, hi) && lo <= mid <= hi
    ensures PagesIn(a + b, lo, hi)
  {
    forall j | 0 <= j < |a + b| ensures lo <= (a + b)[j].page < hi {
      if j >= |a| {
        assert (a + b)[j] == b[j - |a|];
      }
    }
  }

  /** Concatenating an ordered run of earlier pages with an ordered run of
      later pages keeps the order. */
  lemma OrderedAppend(a: seq<ChunkRecord>, b: seq<ChunkRecord>, lo: nat, mid: nat, hi: nat)
    requires Ordered(a) && Ordered(b) && PagesIn(a, lo, mid) && PagesIn(b, mid, hi)
    ensures Ordered(a + b)
  {
    var r := a + b;
    forall i, j | 0 <= i < j < |r| ensures Before(r[i], r[j]) {
      if j < |a| {
        assert r[i] == a[i] && r[j] == a[j];
      } else if i < |a| {
        assert r[i] == a[i] && r[j] == b[j - |a|];
      } else {
        assert r[i] == b[i - |a|] && r[j] == b[j - |a|];
      }
    }
  }

  lemma {:induction false} NumberFacts(fileName: string, perPage: seq<seq<string>>, first: nat)
    ensures Ordered(Number(fileName, perPage, first))
    ensures NamedIn(Number(fileName, perPage, first), {fileName})
    ensures PagesIn(Number(fileName, perPage, first), first, first + |perPage|)
    decreases |perPage|
  {
    if |perPage| > 0 {
      var head := PageRecords(fileName, first, perPage[0]);
      var tail := Number(fileName, perPage[1..], first + 1);
      PageRecordsFacts(fileName, first, perPage[0]);
      NumberFacts(fileName, perPage[1..], first + 1);
      OrderedAppend(head, tail, first, first + 1, first + |perPage|);
      NamedInAppend(head, tail, {fileName});
      PagesInAppend(head, tail, first, first + 1, first + |perPage|);
    }
  }

  lemma {:induction false} NumberOnPage(fileName: string, perPage: seq<seq<string>>, first: nat, p: nat)
    ensures first <= p < first + |perPage| ==>
      OnPage(Number(fileName, perPage, first), p) == PageRecords(fileName, p, perPage[p - first])
    ensures !(first <= p < first + |perPage|) ==> OnPage(Number(fileName, perPage, first), p) == []
    decreases |perPage|
  {
    if |perPage| > 0 {
      var all := Number(fileName, perPage, first);
      var head := PageRecords(fileName, first, perPage[0]);
      var tail := Number(fileName, perPage[1..], first + 1);
      assert all == head + tail;
      OnPageAppend(head, tail, p);
      PageRecordsOnPage(fileName, first, perPage[0], p);
      NumberOnPage(fileName, perPage[1..], first + 1, p);
      if p == first {
        assert OnPage(all, p) == head + [];
      } else if first < p < first + |perPage| {
        assert perPage[1..][p - (first + 1)] == perPage[p - first];
        assert OnPage(all, p) == [] + OnPage(tail, p);
      } else {
        assert OnPage(all, p) == [] + [];
      }
    }
  }

  /** The records of page `p` are exactly that page's chunks, in order, with
      `chunk_index` running 0..n-1 and restarting on every page; a page without
      sentences, or past the last page, contributes no records. */
  lemma ChunkFilePages(file: PdfText, size: int, overlap: int, p: nat)
    ensures var recs := OnPage(ChunkFile(file, size, overlap), p);
      p < |file.pages| ==>
        && |recs| == |ChunkText(file.pages[p], size, overlap)|
        && forall j :: 0 <= j < |recs| ==>
             recs[j] == ChunkRecord(ChunkText(file.pages[p], size, overlap)[j], p, file.name, j)
    ensures p >= |file.pages| ==> OnPage(ChunkFile(file, size, overlap), p) == []
    ensures p < |file.pages| && SplitSentences(file.pages[p]) == [] ==> OnPage(ChunkFile(file, size, overlap), p) == []
  {
    var perPage := PageChunks(file.pages, size, overlap);
    NumberOnPage(file.name, perPage, 0, p);
    if p < |file.pages| {
      PageOfFile(file, size, overlap, p);
    }
  }

  /** Page `p`'s records are the records of its own chunk list. */
  lemma PageOfFile(file: PdfText, size: int, overlap: int, p: nat)
    requires p < |file.pages|
    ensures var cs := ChunkText(file.pages[p], size, overlap);
      && OnPage(ChunkFile(file, size, overlap), p) == PageRecords(file.name, p, cs)
      && (SplitSentences(file.pages[p]) == [] ==> cs == [])
  {
    var perPage := PageChunks(file.pages, size, overlap);
    var recs := Number(file.name, perPage, 0);
    assert ChunkFile(file, size, overlap) == recs;
    NumberPage(file.name, perPage, p);
    NoSentencesNoChunks(file.pages[p], size, overlap);
  }

  lemma NumberPage(fileName: string, perPage: seq<seq<string>>, p: nat)
    requires p < |perPage|
    ensures OnPage(Number(fileName, perPage, 0), p) == PageRecords(fileName, p, perPage[p])
  {
    NumberOnPage(fileName, perPage, 0, p);
  }

  lemma NoSentencesNoChunks(text: string, size: int, overlap: int)
    ensures SplitSentences(text) == [] ==> ChunkText(text, size, overlap) == []
  {
  }

  /** Within a file, records come page by page and by chunk index, so no
      (page, chunk_index) pair repeats, and every record names the file. */
  lemma ChunkFileOrdered(file: PdfText, size: int, overlap: int)
    ensures Ordered(ChunkFile(file, size, overlap))
    ensures NamedIn(ChunkFile(file, size, overlap), {file.name})
  {
    NumberFacts(file.name, PageChunks(file.pages, size, overlap), 0);
  }

  function Names(files: seq<PdfText>): set<string> {
    if |files| == 0 then {} else {files[0].name} + Names(files[1..])
  }

  predicate DistinctNames(files: seq<PdfText>) {
    forall i, j :: 0 <= i < j < |files| ==> files[i].name != files[j].name
  }

  lemma {:induction false} NotInNames(n: string, files: seq<PdfText>)
    requires forall i :: 0 <= i < |files| ==> files[i].name != n
    ensures n !in Names(files)
  {
    if |files| > 0 {
      NotInNames(n, files[1..]);
    }
  }

  lemma {:induction false} ChunkFilesNames(files: seq<PdfText>, size: int, overlap: int)
    ensures NamedIn(ChunkFiles(files, size, overlap), Names(files))
  {
    if |files| > 0 {
      var head := ChunkFile(files[0], size, overlap);
      var tail := ChunkFiles(files[1..], size, overlap);
      ChunkFilesNames(files[1..], size, overlap);
      ChunkFileOrdered(files[0], size, overlap);
      NamedInWiden(head, {files[0].name}, Names(files));
      NamedInWiden(tail, Names(files[1..]), Names(files));
      NamedInAppend(head, tail, Names(files));
    }
  }

  /** No (file_name, page, chunk_index) triple repeats among `recs`. */
  predicate Unique(recs: seq<ChunkRecord>) {
    forall i, j :: 0 <= i < j < |recs| ==>
      (recs[i].fileName, recs[i].page, recs[i].chunkIndex) != (recs[j].fileName, recs[j].page, recs[j].chunkIndex)
  }

  lemma UniqueAppend(a: seq<ChunkRecord>, b: seq<ChunkRecord>, name: string, names: set<string>)
    requires Ordered(a) && NamedIn(a, {name}) && Unique(b) && NamedIn(b, names) && name !in names
    ensures Unique(a + b)
  {
    var r := a + b;
    forall i, j | 0 <= i < j < |r|
      ensures (r[i].fileName, r[i].page, r[i].chunkIndex) != (r[j].fileName, r[j].page, r[j].chunkIndex)
    {
      if j < |a| {
        assert r[i] == a[i] && r[j] == a[j];
        assert Before(a[i], a[j]);
      } else if i < |a| {
        assert r[i] == a[i] && r[j] == b[j - |a|];
        assert r[i].fileName == name;
      } else {
        assert r[i] == b[i - |a|] && r[j] == b[j - |a|];
      }
    }
  }

  /** Across a folder of distinctly named files, no (file_name, page,
      chunk_index) triple repeats. */
  lemma {:induction false} ChunkFilesUnique(files: seq<PdfText>, size: int, overlap: int)
    requires DistinctNames(files)
    ensures Unique(ChunkFiles(files, size, overlap))
  {
    if |files| > 0 {
      var tail := files[1..];
      assert DistinctNames(tail) by {
        forall i, j | 0 <= i < j < |tail| ensures tail[i].name != tail[j].name {
          assert tail[i] == files[i + 1] && tail[j] == files[j + 1];
        }
      }
      forall i | 0 <= i < |tail| ensures tail[i].name != files[0].name {
        assert tail[i] == files[i + 1];
      }
      NotInNames(files[0].name, tail);
      ChunkFilesUnique(tail, size, overlap);
      ChunkFilesNames(tail, size, overlap);
      ChunkFileOrdered(files[0], size, overlap);
      UniqueAppend(ChunkFile(files[0], size, overlap), ChunkFiles(tail, size, overlap), files[0].name, Names(tail));
    }
  }
}
