/** `build_context_json` as a projection of a vector-store query result to a
    list of context entries, and the answer map built by `rag_pipeline`. */
module ContextBuilder {
  import opened Results
  import opened Text
  import opened Dicts

  /** A metadata value as stored with a chunk: text (file name) or a number
      (page). */
  datatype MetaValue = MStr(s: string) | MInt(i: int)

  type Metadata = map<string, MetaValue>

  /** The part of a query result the context builder reads. `None` stands for
      a key absent from the result dictionary; each present value is the list
      of per-query lists. */
  datatype QueryResult = QueryResult(documents: Option<seq<seq<string>>>, metadatas: Option<seq<seq<Metadata>>>)

  /** One element of `context_results`. */
  datatype ContextEntry = ContextEntry(source: string, page: MetaValue, content: string)

  const DefaultSource: string := "unknown_source.txt"
  const DefaultPage: string := "Unknown page"
  const IndexErr: string := "IndexError: list index out of range"
  const NoReplaceErr: string := "AttributeError: 'int' object has no attribute 'replace'"

  /** `documents.get(key, [[]])[0]` */
  function FirstOr<T>(v: Option<seq<seq<T>>>): (r: Result<seq<T>>)
    ensures v.None? ==> r == Ok([])
    ensures v.Some? ==> (r.Err? <==> |v.value| == 0)
    ensures v.Some? && |v.value| > 0 ==> r == Ok(v.value[0])
  {
    match v
    case None => Ok([])
    case Some(outer) => if |outer| == 0 then Err(IndexErr) else Ok(outer[0])
  }

  /** `meta.get("source", "unknown_source.txt").replace(".txt", "")` */
  function SourceOf(meta: Metadata): Result<string> {
    if "source" !in meta then Ok(RemoveTxt(DefaultSource))
    else match meta["source"]
      case MStr(s) => Ok(RemoveTxt(s))
      case MInt(_) => Err(NoReplaceErr)
  }

  /** `meta.get("page", "Unknown page")` */
  function PageOf(meta: Metadata): MetaValue {
    if "page" in meta then meta["page"] else MStr(DefaultPage)
  }

  /** The entry for one (doc, meta) pair. */
  function EntryOf(doc: string, meta: Metadata): Result<ContextEntry> {
    var source :- SourceOf(meta);
    Ok(ContextEntry(source, PageOf(meta), Strip(doc)))
  }

  /** The loop over `zip(docs, metadatas)`: stops at the shorter list; the
      first pair whose source cannot be rewritten aborts the whole call. */
  function Entries(docs: seq<string>, metas: seq<Metadata>): Result<seq<ContextEntry>>
    decreases |docs|
  {
    if |docs| == 0 || |metas| == 0 then Ok([])
    else
      var e :- EntryOf(docs[0], metas[0]);
      var rest :- Entries(docs[1..], metas[1..]);
      Ok([e] + rest)
  }

  /** `build_context_json(documents)`, without the JSON rendering. */
  function BuildContext(q: QueryResult): Result<seq<ContextEntry>> {
    var docs :- FirstOr(q.documents);
    var metas :- FirstOr(q.metadatas);
    Entries(docs, metas)
  }

  function Min(a: nat, b: nat): nat {
    if a <= b then a else b
  }

  /** Some pair within the zipped length carries a numeric source. */
  predicate BadSourceAmong(docs: seq<string>, metas: seq<Metadata>) {
    exists i :: 0 <= i < Min(|docs|, |metas|) && SourceOf(metas[i]).Err?
  }

  // ---------------------------------------------------------------------------
  // Properties of the context builder

  /** One entry per zipped pair, in retrieval order, truncated to the shorter
      list; each entry projects its own pair. The call fails exactly when some
      zipped pair has a numeric source. */
  lemma EntriesSpec(docs: seq<string>, metas: seq<Metadata>)
    ensures Entries(docs, metas).Err? <==> BadSourceAmong(docs, metas)
    ensures Entries(docs, metas).Ok? ==>
      var es := Entries(docs, metas).value;
      && |es| == Min(|docs|, |metas|)
      && forall i :: 0 <= i < |es| ==> Ok(es[i]) == EntryOf(docs[i], metas[i])
  {
    EntriesErr(docs, metas);
    EntriesOk(docs, metas);
  }

  lemma BadSourceCons(docs: seq<string>, metas: seq<Metadata>)
    requires |docs| > 0 && |metas| > 0
    ensures BadSourceAmong(docs, metas) <==> SourceOf(metas[0]).Err? || BadSourceAmong(docs[1..], metas[1..])
  {
    if BadSourceAmong(docs[1..], metas[1..]) {
      var i :| 0 <= i < Min(|docs[1..]|, |metas[1..]|) && SourceOf(metas[1..][i]).Err?;
      assert SourceOf(metas[i + 1]).Err?;
    }
    if BadSourceAmong(docs, metas) && SourceOf(metas[0]).Ok? {
      var i :| 0 <= i < Min(|docs|, |metas|) && SourceOf(metas[i]).Err?;
      assert i > 0 && metas[1..][i - 1] == metas[i];
    }
  }

  lemma {:induction false} EntriesErr(docs: seq<string>, metas: seq<Metadata>)
    ensures Entries(docs, metas).Err? <==> BadSourceAmong(docs, metas)
    decreases |docs|
  {
    if |docs| > 0 && |metas| > 0 {
      EntriesErr(docs[1..], metas[1..]);
      BadSourceCons(docs, metas);
      assert EntryOf(docs[0], metas[0]).Err? <==> SourceOf(metas[0]).Err?;
    }
  }

  lemma {:induction false} EntriesOk(docs: seq<string>, metas: seq<Metadata>)
    ensures Entries(docs, metas).Ok? ==>
      var es := Entries(docs, metas).value;
      && |es| == Min(|docs|, |metas|)
      && forall i :: 0 <= i < |es| ==> Ok(es[i]) == EntryOf(docs[i], metas[i])
    decreases |docs|
  {
    if |docs| > 0 && |metas| > 0 && Entries(docs, metas).Ok? {
      var rest := Entries(docs[1..], metas[1..]);
      EntriesOk(docs[1..], metas[1..]);
      var es := Entries(docs, metas).value;
      assert es == [EntryOf(docs[0], metas[0]).value] + rest.value;
      forall i | 0 < i < |es| ensures Ok(es[i]) == EntryOf(docs[i], metas[i]) {
        assert es[i] == rest.value[i - 1];
        assert docs[1..][i - 1] == docs[i] && metas[1..][i - 1] == metas[i];
      }
    }
  }

  /** A missing `documents` or `metadatas` key gives an empty context. */
  lemma BuildContextMissing(q: QueryResult)
    requires q.documents.None? || q.metadatas.None?
    requires q.documents.Some? ==> |q.documents.value| > 0
    requires q.metadatas.Some? ==> |q.metadatas.value| > 0
    ensures BuildContext(q) == Ok([])
  {
  }

  /** An empty outer list under a present key is an `IndexError`. */
  lemma BuildContextEmptyOuter(q: QueryResult)
    requires (q.documents.Some? && |q.documents.value| == 0)
      || (q.metadatas.Some? && |q.metadatas.value| == 0)
    ensures BuildContext(q) == Err(IndexErr)
  {
  }

  /** The fields of an entry: the source with every `.txt` removed (a missing
      source gives `unknown_source`), the page passed through (a missing page
      gives `Unknown page`), and the document with surrounding whitespace
      trimmed. */
  lemma EntryFields(doc: string, meta: Metadata)
    ensures "source" !in meta ==> EntryOf(doc, meta) == Ok(ContextEntry("unknown_source", PageOf(meta), Strip(doc)))
    ensures "source" in meta && meta["source"].MStr? ==>
      EntryOf(doc, meta) == Ok(ContextEntry(RemoveTxt(meta["source"].s), PageOf(meta), Strip(doc)))
    ensures "source" in meta && meta["source"].MInt? ==> EntryOf(doc, meta).Err?
    ensures "page" in meta ==> PageOf(meta) == meta["page"]
    ensures "page" !in meta ==> PageOf(meta) == MStr("Unknown page")
  {
    UnknownSource(DefaultSource);
  }

  lemma UnknownSource(src: string)
    requires src == DefaultSource
    ensures RemoveTxt(src) == "unknown_source"
  {
    var base := "unknown_source";
    assert src == base + Txt;
    forall i: nat | i < |base| ensures !TxtAt(base, i) {
      assert base[i] != '.';
    }
    RemoveTxtSuffix(base);
  }

  /** A source name without `.txt` (such as `x.pdf`) is kept as is. */
  lemma EntryKeepsPlainSource(doc: string, meta: Metadata)
    requires "source" in meta && meta["source"].MStr? && !ContainsTxt(meta["source"].s)
    ensures EntryOf(doc, meta).Ok? && EntryOf(doc, meta).value.source == meta["source"].s
  {
    RemoveTxtAbsent(meta["source"].s);
  }

  // ---------------------------------------------------------------------------
  // The answer map of `rag_pipeline`

  /** The keys of a list of (key, value) pairs, in order. */
  function KeysOf<V>(kvs: seq<(string, V)>): (ks: seq<string>)
    ensures |ks| == |kvs| && forall i :: 0 <= i < |kvs| ==> ks[i] == kvs[i].0
  {
    seq(|kvs|, i requires 0 <= i < |kvs| => kvs[i].0)
  }

  /** Position of the first occurrence of `k`. */
  function FirstIndex(ks: seq<string>, k: string): (r: nat)
    requires k in ks
    ensures r < |ks| && ks[r] == k && forall j :: 0 <= j < r ==> ks[j] != k
  {
    if ks[0] == k then 0 else 1 + FirstIndex(ks[1..], k)
  }

  /** Position of the last occurrence of `k`. */
  function LastIndex(ks: seq<string>, k: string): (r: nat)
    requires k in ks
    ensures r < |ks| && ks[r] == k && forall j :: r < j < |ks| ==> ks[j] != k
  {
    if ks[|ks| - 1] == k then |ks| - 1 else LastIndex(ks[..|ks| - 1], k)
  }

  /** `answers[key] = answer` for every pair, in order, starting from `{}`. */
  function Collect<V>(kvs: seq<(string, V)>): Dict<V>
    decreases |kvs|
  {
    if |kvs| == 0 then Empty()
    else Put(Collect(kvs[..|kvs| - 1]), kvs[|kvs| - 1].0, kvs[|kvs| - 1].1)
  }

  /** Keys of `d` appear in the order of their first occurrence in `ks`. */
  predicate FirstOrder(keys: seq<string>, ks: seq<string>) {
    && (forall i :: 0 <= i < |keys| ==> keys[i] in ks)
    && forall i, j :: 0 <= i < j < |keys| ==> FirstIndex(ks, keys[i]) < FirstIndex(ks, keys[j])
  }

  lemma FirstIndexExtend(ks: seq<string>, x: string, k: string)
    requires k in ks
    ensures FirstIndex(ks + [x], k) == FirstIndex(ks, k)
  {
    var r := FirstIndex(ks, k);
    var r' := FirstIndex(ks + [x], k);
    assert (ks + [x])[r] == k;
    assert r' <= r;
    assert ks[r'] == (ks + [x])[r'];
  }

  /** The map holds exactly the keys of the pairs. */
  lemma {:induction false} CollectKeys<V>(kvs: seq<(string, V)>)
    ensures forall k :: k in Collect(kvs).vals <==> k in KeysOf(kvs)
    ensures forall i :: 0 <= i < |Collect(kvs).keys| ==> Collect(kvs).keys[i] in KeysOf(kvs)
    decreases |kvs|
  {
    if |kvs| > 0 {
      var init := kvs[..|kvs| - 1];
      CollectKeys(init);
      assert KeysOf(kvs) == KeysOf(init) + [kvs[|kvs| - 1].0];
    }
  }

  /** Appending a key already seen keeps the first-occurrence order. */
  lemma FirstOrderSeen(keys: seq<string>, ks: seq<string>, x: string)
    requires FirstOrder(keys, ks)
    ensures FirstOrder(keys, ks + [x])
  {
    forall i | 0 <= i < |keys| ensures FirstIndex(ks + [x], keys[i]) == FirstIndex(ks, keys[i]) {
      FirstIndexExtend(ks, x, keys[i]);
    }
  }

  /** Appending a new key puts it last in first-occurrence order. */
  lemma FirstOrderNew(keys: seq<string>, ks: seq<string>, x: string)
    requires FirstOrder(keys, ks) && x !in ks
    ensures FirstOrder(keys + [x], ks + [x])
  {
    var ks' := ks + [x];
    var keys' := keys + [x];
    FirstOrderSeen(keys, ks, x);
    assert FirstIndex(ks', x) == |ks|;
    forall i | 0 <= i < |keys| ensures FirstIndex(ks', keys[i]) < |ks| {
      FirstIndexExtend(ks, x, keys[i]);
    }
    assert forall i :: 0 <= i < |keys| ==> keys'[i] == keys[i];
  }

  /** The keys are listed in order of first insertion. */
  lemma {:induction false} CollectOrder<V>(kvs: seq<(string, V)>)
    ensures FirstOrder(Collect(kvs).keys, KeysOf(kvs))
    decreases |kvs|
  {
    if |kvs| > 0 {
      var init := kvs[..|kvs| - 1];
      var last := kvs[|kvs| - 1].0;
      CollectOrder(init);
      CollectKeys(init);
      var d0 := Collect(init);
      assert KeysOf(kvs) == KeysOf(init) + [last];
      if last in d0.vals {
        FirstOrderSeen(d0.keys, KeysOf(init), last);
      } else {
        FirstOrderNew(d0.keys, KeysOf(init), last);
      }
    }
  }

  lemma LastIndexExtend(ks: seq<string>, x: string, k: string)
    requires k in ks && k != x
    ensures LastIndex(ks + [x], k) == LastIndex(ks, k)
  {
    assert (ks + [x])[..|ks|] == ks;
  }

  /** Each key maps to the value of its last pair. */
  lemma {:induction false} CollectLast<V>(kvs: seq<(string, V)>)
    ensures forall k :: k in Collect(kvs).vals ==>
      k in KeysOf(kvs) && Collect(kvs).vals[k] == kvs[LastIndex(KeysOf(kvs), k)].1
    decreases |kvs|
  {
    if |kvs| > 0 {
      CollectLast(kvs[..|kvs| - 1]);
      forall k | k in Collect(kvs).vals
        ensures k in KeysOf(kvs) && Collect(kvs).vals[k] == kvs[LastIndex(KeysOf(kvs), k)].1
      {
        CollectLastKey(kvs, k);
      }
    }
  }

  /** The step of `CollectLast` for one key. */
  lemma CollectLastKey<V>(kvs: seq<(string, V)>, k: string)
    requires |kvs| > 0 && k in Collect(kvs).vals
    requires var init := kvs[..|kvs| - 1];
      k in Collect(init).vals ==> k in KeysOf(init) && Collect(init).vals[k] == init[LastIndex(KeysOf(init), k)].1
    ensures k in KeysOf(kvs) && Collect(kvs).vals[k] == kvs[LastIndex(KeysOf(kvs), k)].1
  {
    var init := kvs[..|kvs| - 1];
    var last := kvs[|kvs| - 1];
    var ks0 := KeysOf(init);
    var ks := KeysOf(kvs);
    assert ks == ks0 + [last.0];
    if k == last.0 {
      assert LastIndex(ks, k) == |kvs| - 1;
    } else {
      LastIndexExtend(ks0, last.0, k);
      var r := LastIndex(ks0, k);
      assert kvs[r] == init[r];
    }
  }

  lemma LastIndexDistinct(ks: seq<string>, i: nat)
    requires i < |ks| && forall a, b :: 0 <= a < b < |ks| ==> ks[a] != ks[b]
    ensures LastIndex(ks, ks[i]) == i
  {
  }

  /** Pairs with distinct keys give a map whose keys are those keys, in order. */
  lemma {:induction false} CollectDistinctKeys<V>(kvs: seq<(string, V)>)
    requires forall i, j :: 0 <= i < j < |kvs| ==> kvs[i].0 != kvs[j].0
    ensures Collect(kvs).keys == KeysOf(kvs)
    decreases |kvs|
  {
    if |kvs| > 0 {
      var init := kvs[..|kvs| - 1];
      var last := kvs[|kvs| - 1].0;
      assert forall i, j :: 0 <= i < j < |init| ==> init[i].0 != init[j].0;
      CollectDistinctKeys(init);
      CollectKeys(init);
      assert last !in KeysOf(init) by {
        forall i | 0 <= i < |init| ensures KeysOf(init)[i] != last {
          assert kvs[i].0 != kvs[|kvs| - 1].0;
        }
      }
      KeysOfSnoc(kvs);
    }
  }

  lemma KeysOfSnoc<V>(kvs: seq<(string, V)>)
    requires |kvs| > 0
    ensures KeysOf(kvs) == KeysOf(kvs[..|kvs| - 1]) + [kvs[|kvs| - 1].0]
  {
    var init := kvs[..|kvs| - 1];
    assert |KeysOf(kvs)| == |KeysOf(init) + [kvs[|kvs| - 1].0]|;
    forall i | 0 <= i < |kvs| ensures KeysOf(kvs)[i] == (KeysOf(init) + [kvs[|kvs| - 1].0])[i] {
      if i < |init| {
        assert init[i] == kvs[i];
      }
    }
  }

  /** With distinct keys, every pair's value is stored under its key. */
  lemma CollectDistinctValues<V>(kvs: seq<(string, V)>)
    requires forall i, j :: 0 <= i < j < |kvs| ==> kvs[i].0 != kvs[j].0
    ensures forall i :: 0 <= i < |kvs| ==> kvs[i].0 in Collect(kvs).vals && Collect(kvs).vals[kvs[i].0] == kvs[i].1
  {
    CollectKeys(kvs);
    CollectLast(kvs);
    var ks := KeysOf(kvs);
    forall i | 0 <= i < |kvs| ensures kvs[i].0 in Collect(kvs).vals && Collect(kvs).vals[kvs[i].0] == kvs[i].1 {
      LastIndexDistinct(ks, i);
    }
  }

  /** The (key, question) pairs of all parameter dictionaries, in order. */
  function Questions(params: seq<Dict<string>>): seq<(string, string)>
    decreases |params|
  {
    if |params| == 0 then [] else Items(params[0]) + Questions(params[1..])
  }

  /** Ask every question: retrieve, build the context, call the model. The
      first context that cannot be built aborts the run. */
  function Ask(qs: seq<(string, string)>, retrieve: string -> QueryResult,
               llm: (seq<ContextEntry>, string) -> string): Result<seq<(string, string)>>
    decreases |qs|
  {
    if |qs| == 0 then Ok([])
    else
      var context :- BuildContext(retrieve(qs[0].1));
      var rest :- Ask(qs[1..], retrieve, llm);
      Ok([(qs[0].0, llm(context, qs[0].1))] + rest)
  }

  /** `rag_pipeline(parameters, collection)`, with retrieval and the model as
      parameters. */
  function RagPipeline(params: seq<Dict<string>>, retrieve: string -> QueryResult,
                       llm: (seq<ContextEntry>, string) -> string): Result<Dict<string>>
  {
    var answered :- Ask(Questions(params), retrieve, llm);
    Ok(Collect(answered))
  }

  /** One answer per (key, question) pair, in order: each keeps its key and
      is the model's answer on that question's context. */
  lemma {:induction false} AskSpec(qs: seq<(string, string)>, retrieve: string -> QueryResult,
                                   llm: (seq<ContextEntry>, string) -> string)
    ensures Ask(qs, retrieve, llm).Ok? <==> forall i :: 0 <= i < |qs| ==> BuildContext(retrieve(qs[i].1)).Ok?
    ensures Ask(qs, retrieve, llm).Ok? ==>
      var out := Ask(qs, retrieve, llm).value;
      && |out| == |qs|
      && forall i :: 0 <= i < |qs| ==> out[i].0 == qs[i].0 && AnswerTo(qs[i].1, retrieve, llm) == Some(out[i].1)
    decreases |qs|
  {
    if |qs| > 0 {
      AskSpec(qs[1..], retrieve, llm);
      if forall i :: 0 <= i < |qs| ==> BuildContext(retrieve(qs[i].1)).Ok? {
        assert forall i :: 0 <= i < |qs[1..]| ==> BuildContext(retrieve(qs[1..][i].1)).Ok? by {
          forall i | 0 <= i < |qs[1..]| ensures BuildContext(retrieve(qs[1..][i].1)).Ok? {
            assert qs[1..][i] == qs[i + 1];
          }
        }
      } else {
        var i :| 0 <= i < |qs| && BuildContext(retrieve(qs[i].1)).Err?;
        if i > 0 {
          assert qs[1..][i - 1] == qs[i];
        }
      }
    }
  }

  /** The model's answer to question `q`, when its context can be built. */
  function AnswerTo(q: string, retrieve: string -> QueryResult,
                    llm: (seq<ContextEntry>, string) -> string): Option<string>
  {
    match BuildContext(retrieve(q))
    case Ok(context) => Some(llm(context, q))
    case Err(_) => None
  }

  /** `answers` maps each key to the answer to the last question asked under it. */
  predicate LastAnswers(answers: Dict<string>, qs: seq<(string, string)>, retrieve: string -> QueryResult,
                        llm: (seq<ContextEntry>, string) -> string)
  {
    forall k :: k in answers.vals ==>
      k in KeysOf(qs) && AnswerTo(qs[LastIndex(KeysOf(qs), k)].1, retrieve, llm) == Some(answers.vals[k])
  }

  /** Pairs that carry the distinct keys of `qs`, position by position, are
      stored each under its own key, in the order of `qs`. */
  lemma CollectPaired<V, W>(qs: seq<(string, V)>, out: seq<(string, W)>)
    requires |out| == |qs| && forall i :: 0 <= i < |qs| ==> out[i].0 == qs[i].0
    requires forall i, j :: 0 <= i < j < |qs| ==> qs[i].0 != qs[j].0
    ensures Collect(out).keys == KeysOf(qs)
    ensures forall j :: 0 <= j < |qs| ==> qs[j].0 in Collect(out).vals && Collect(out).vals[qs[j].0] == out[j].1
  {
    assert KeysOf(out) == KeysOf(qs);
    CollectDistinctKeys(out);
    CollectDistinctValues(out);
  }

  /** With distinct keys, every question's answer is stored under its own key,
      and the keys keep the question order. */
  lemma AskDistinct(qs: seq<(string, string)>, retrieve: string -> QueryResult,
                    llm: (seq<ContextEntry>, string) -> string)
    requires forall i, j :: 0 <= i < j < |qs| ==> qs[i].0 != qs[j].0
    requires Ask(qs, retrieve, llm).Ok?
    ensures var answers := Collect(Ask(qs, retrieve, llm).value);
      && answers.keys == KeysOf(qs)
      && forall j :: 0 <= j < |qs| ==>
           qs[j].0 in answers.vals && AnswerTo(qs[j].1, retrieve, llm) == Some(answers.vals[qs[j].0])
  {
    var out := Ask(qs, retrieve, llm).value;
    AskSpec(qs, retrieve, llm);
    CollectPaired(qs, out);
  }

  /** The run fails exactly when some question's context cannot be built.
      Otherwise the answer map holds one key per distinct question key, in
      order of first appearance across the parameter dictionaries, and a key
      asked more than once keeps the answer to its last question. */
  lemma RagPipelineSpec(params: seq<Dict<string>>, retrieve: string -> QueryResult,
                        llm: (seq<ContextEntry>, string) -> string)
    ensures RagPipeline(params, retrieve, llm).Ok? <==>
      forall i :: 0 <= i < |Questions(params)| ==> BuildContext(retrieve(Questions(params)[i].1)).Ok?
    ensures RagPipeline(params, retrieve, llm).Ok? ==>
      var answers := RagPipeline(params, retrieve, llm).value;
      && (forall k :: k in answers.vals <==> k in KeysOf(Questions(params)))
      && FirstOrder(answers.keys, KeysOf(Questions(params)))
      && LastAnswers(answers, Questions(params), retrieve, llm)
  {
    var qs := Questions(params);
    AskSpec(qs, retrieve, llm);
    assert RagPipeline(params, retrieve, llm).Ok? <==> Ask(qs, retrieve, llm).Ok?;
    if Ask(qs, retrieve, llm).Ok? {
      var out := Ask(qs, retrieve, llm).value;
      var answers := Collect(out);
      assert RagPipeline(params, retrieve, llm) == Ok(answers);
      CollectKeys(out);
      CollectOrder(out);
      CollectLast(out);
      var ks := KeysOf(qs);
      assert KeysOf(out) == ks;
      forall k | k in answers.vals
        ensures k in ks && AnswerTo(qs[LastIndex(ks, k)].1, retrieve, llm) == Some(answers.vals[k])
      {
        var r := LastIndex(ks, k);
        assert AnswerTo(qs[r].1, retrieve, llm) == Some(out[r].1);
      }
    } else {
      var i :| 0 <= i < |qs| && BuildContext(retrieve(qs[i].1)).Err?;
      assert BuildContext(retrieve(Questions(params)[i].1)).Err?;
    }
  }
}
