/** `avg_score`, the record layout of `ipo_evaluator` and the `ipo_result`
    summary. The answerer is `rag_pipeline` with retrieval and model passed in;
    the judge is an arbitrary function of (topic, company answer, ideal answer). */
module Evaluator {
  import opened Results
  import opened Text
  import opened PyInt
  import opened Dicts
  import opened ContextBuilder

  /** A value stored in an evaluation record: text (an answer or a judge's
      output), a whole ideal-answer dictionary, or a `dict_values` view, which
      is what `company_answer` still holds when a question dict has no keys. */
  datatype Value = Str(s: string) | Obj(d: Dict<string>) | ValuesView(vs: seq<string>)

  /** Every record is a small dictionary. */
  type Item = Dict<Value>

  const ScoreKey: string := "evaluation_score"
  const IdealKey: string := "ideal_answer"
  const TypeErr: string := "TypeError: int() argument must be a string, a bytes-like object or a real number"
  const OverflowErr: string := "OverflowError: integer division result too large for a float"
  const UnboundTopic: string := "UnboundLocalError: cannot access local variable 'topic' where it is not associated with a value"

  // ---------------------------------------------------------------------------
  // avg_score

  /** The running (total_score, count) of the loop in `avg_score`, for an
      integer parser `parse` (`int()` is `ParseInt`): records without the score
      key are ignored, a score whose text does not parse is skipped, and a
      score that is not text raises `TypeError`, which the loop does not catch. */
  function Totals(items: seq<Item>, parse: string -> Option<int>): Result<(int, nat)>
    decreases |items|
  {
    if |items| == 0 then Ok((0, 0))
    else
      var acc :- Totals(items[..|items| - 1], parse);
      var last := items[|items| - 1];
      if ScoreKey !in last.vals then Ok(acc)
      else match last.vals[ScoreKey]
        case Str(s) =>
          (match parse(s)
           case Some(v) => Ok((acc.0 + v, acc.1 + 1))
           case None => Ok(acc))
        case _ => Err(TypeErr)
  }

  /** 2^1024 - 2^970, the least magnitude an `int / int` true division cannot
      return. The quotient is rounded to the nearest binary64 value; this is
      the midpoint between the largest finite one, (2^53 - 1) * 2^971, and
      2^1024, and ties round to the even neighbour, 2^1024, which overflows. */
  const FloatOverflow: int := 0xFFFFFFFFFFFFFC00_0000000000000000_0000000000000000_0000000000000000_0000000000000000_0000000000000000_0000000000000000_0000000000000000_0000000000000000_0000000000000000_0000000000000000_0000000000000000_0000000000000000_0000000000000000_0000000000000000_0000000000000000

  /** A quotient Python's true division can return as a finite float. */
  predicate FloatFits(q: real) {
    -(FloatOverflow as real) < q < FloatOverflow as real
  }

  /** `total_score / count if count > 0 else 0`, as an exact real. The
      division sits outside the `try`, so its OverflowError escapes. */
  function Average(items: seq<Item>, parse: string -> Option<int>): Result<real> {
    var acc :- Totals(items, parse);
    if acc.1 == 0 then Ok(0.0)
    else
      var q := acc.0 as real / acc.1 as real;
      if FloatFits(q) then Ok(q) else Err(OverflowErr)
  }

  /** `avg_score(evaluation_result)` */
  function AvgScore(items: seq<Item>): Result<real> {
    Average(items, ParseInt)
  }

  // Reference definitions: the score values, the integers among them, and their mean.

  /** The values stored under `evaluation_score`, in record order. */
  function ScoreValues(items: seq<Item>): seq<Value>
    decreases |items|
  {
    if |items| == 0 then []
    else
      var last := items[|items| - 1];
      ScoreValues(items[..|items| - 1]) + (if ScoreKey in last.vals then [last.vals[ScoreKey]] else [])
  }

  predicate AllText(vs: seq<Value>) {
    forall i :: 0 <= i < |vs| ==> vs[i].Str?
  }

  /** The integers that the text values among `vs` parse to, in order. */
  function Parsed(vs: seq<Value>, parse: string -> Option<int>): seq<int>
    decreases |vs|
  {
    if |vs| == 0 then []
    else
      var last := vs[|vs| - 1];
      Parsed(vs[..|vs| - 1], parse) + (if last.Str? && parse(last.s).Some? then [parse(last.s).value] else [])
  }

  function Sum(xs: seq<int>): int
    decreases |xs|
  {
    if |xs| == 0 then 0 else Sum(xs[..|xs| - 1]) + xs[|xs| - 1]
  }

  /** The arithmetic mean, 0 for no values. */
  function Mean(xs: seq<int>): real {
    if |xs| == 0 then 0.0 else Sum(xs) as real / |xs| as real
  }

  lemma AllTextSnoc(vs: seq<Value>, v: Value)
    ensures AllText(vs + [v]) <==> AllText(vs) && v.Str?
  {
    var ws := vs + [v];
    if AllText(vs) && v.Str? {
      forall i | 0 <= i < |ws| ensures ws[i].Str? {
        if i < |vs| {
          assert ws[i] == vs[i];
        }
      }
    }
    if AllText(ws) {
      forall i | 0 <= i < |vs| ensures vs[i].Str? {
        assert ws[i] == vs[i];
      }
      assert ws[|vs|] == v;
    }
  }

  lemma {:induction false} TotalsSpec(items: seq<Item>, parse: string -> Option<int>)
    ensures Totals(items, parse) ==
      if AllText(ScoreValues(items)) then Ok((Sum(Parsed(ScoreValues(items), parse)), |Parsed(ScoreValues(items), parse)|))
      else Err(TypeErr)
    decreases |items|
  {
    if |items| > 0 {
      var init := items[..|items| - 1];
      var last := items[|items| - 1];
      TotalsSpec(init, parse);
      var vs0 := ScoreValues(init);
      var vs := ScoreValues(items);
      if ScoreKey in last.vals {
        var v := last.vals[ScoreKey];
        assert vs == vs0 + [v];
        assert vs[..|vs| - 1] == vs0;
        AllTextSnoc(vs0, v);
        var p0 := Parsed(vs0, parse);
        if v.Str? && parse(v.s).Some? {
          var p := p0 + [parse(v.s).value];
          assert Parsed(vs, parse) == p;
          assert p[..|p| - 1] == p0;
        } else {
          assert Parsed(vs, parse) == p0;
        }
      } else {
        assert vs == vs0;
      }
    }
  }

  /** The score loop fails with TypeError exactly when some score value is
      not text; otherwise the division fails exactly when the mean of the
      scores that parse is beyond the float range; otherwise the result is
      that mean, with no range check on the scores, and 0 when none parses. */
  lemma AverageSpec(items: seq<Item>, parse: string -> Option<int>)
    ensures !AllText(ScoreValues(items)) ==> Average(items, parse) == Err(TypeErr)
    ensures AllText(ScoreValues(items)) && !FloatFits(Mean(Parsed(ScoreValues(items), parse))) ==>
      Average(items, parse) == Err(OverflowErr)
    ensures Average(items, parse).Err? <==>
      !AllText(ScoreValues(items)) || !FloatFits(Mean(Parsed(ScoreValues(items), parse)))
    ensures Average(items, parse).Ok? ==> Average(items, parse).value == Mean(Parsed(ScoreValues(items), parse))
  {
    TotalsSpec(items, parse);
  }

  /** `avg_score` raises TypeError exactly when some score value is not text,
      and otherwise OverflowError exactly when the mean of the scores that
      `int()` accepts is beyond the float range; otherwise it is that mean,
      and 0 when no score parses. */
  lemma AvgScoreSpec(items: seq<Item>)
    ensures !AllText(ScoreValues(items)) ==> AvgScore(items) == Err(TypeErr)
    ensures AllText(ScoreValues(items)) && !FloatFits(Mean(Parsed(ScoreValues(items), ParseInt))) ==>
      AvgScore(items) == Err(OverflowErr)
    ensures AvgScore(items).Err? <==>
      !AllText(ScoreValues(items)) || !FloatFits(Mean(Parsed(ScoreValues(items), ParseInt)))
    ensures AvgScore(items).Ok? ==> AvgScore(items).value == Mean(Parsed(ScoreValues(items), ParseInt))
  {
    AverageSpec(items, ParseInt);
  }

  /** A single score of at least 2^1024 - 2^970, which `int()` still reads
      when it has at most 4300 digits, makes the division overflow. */
  lemma AvgScoreOverflow(i: int)
    requires FloatOverflow <= i && DigitCount(i) <= MaxStrDigits
    ensures AvgScore([Single(ScoreKey, Str(Show(i)))]) == Err(OverflowErr)
  {
    ParseShow(i, "");
    AverageSingle(Show(i), i, ParseInt);
  }

  lemma AverageSingle(text: string, v: int, parse: string -> Option<int>)
    requires parse(text) == Some(v)
    ensures Average([Single(ScoreKey, Str(text))], parse) ==
      if FloatFits(v as real) then Ok(v as real) else Err(OverflowErr)
  {
    var items := [Single(ScoreKey, Str(text))];
    assert items[..0] == [];
    assert Totals(items, parse) == Ok((v, 1));
  }

  lemma {:induction false} ScoreValuesAppend(a: seq<Item>, b: seq<Item>)
    ensures ScoreValues(a + b) == ScoreValues(a) + ScoreValues(b)
    decreases |b|
  {
    if |b| == 0 {
      assert a + b == a;
    } else {
      var b0 := b[..|b| - 1];
      ScoreValuesAppend(a, b0);
      assert (a + b)[..|a + b| - 1] == a + b0;
      assert (a + b)[|a + b| - 1] == b[|b| - 1];
    }
  }

  lemma {:induction false} ParsedAppend(u: seq<Value>, v: seq<Value>, parse: string -> Option<int>)
    ensures Parsed(u + v, parse) == Parsed(u, parse) + Parsed(v, parse)
    decreases |v|
  {
    if |v| == 0 {
      assert u + v == u;
    } else {
      var v0 := v[..|v| - 1];
      ParsedAppend(u, v0, parse);
      assert (u + v)[..|u + v| - 1] == u + v0;
      assert (u + v)[|u + v| - 1] == v[|v| - 1];
    }
  }

  lemma AllTextAppend(u: seq<Value>, v: seq<Value>)
    ensures AllText(u + v) <==> AllText(u) && AllText(v)
  {
    assert forall i :: 0 <= i < |u| ==> u[i] == (u + v)[i];
    assert forall i :: 0 <= i < |v| ==> v[i] == (u + v)[|u| + i];
  }

  /** The score loop depends only on whether every score is text and on the
      integers the scores parse to. */
  lemma AverageByScores(i1: seq<Item>, i2: seq<Item>, parse: string -> Option<int>)
    requires AllText(ScoreValues(i1)) == AllText(ScoreValues(i2))
    requires Parsed(ScoreValues(i1), parse) == Parsed(ScoreValues(i2), parse)
    ensures Average(i1, parse) == Average(i2, parse)
  {
    TotalsSpec(i1, parse);
    TotalsSpec(i2, parse);
  }

  lemma ScoreValuesInsert(a: seq<Item>, x: Item, b: seq<Item>)
    ensures ScoreValues(a + [x] + b) == ScoreValues(a) + ScoreValues([x]) + ScoreValues(b)
    ensures ScoreValues(a + b) == ScoreValues(a) + ScoreValues(b)
  {
    ScoreValuesAppend(a, [x]);
    ScoreValuesAppend(a + [x], b);
    ScoreValuesAppend(a, b);
  }

  lemma NeutralValues(sa: seq<Value>, sx: seq<Value>, sb: seq<Value>, parse: string -> Option<int>)
    requires AllText(sx) && Parsed(sx, parse) == []
    ensures AllText(sa + sx + sb) == AllText(sa + sb)
    ensures Parsed(sa + sx + sb, parse) == Parsed(sa + sb, parse)
  {
    NeutralText(sa, sx, sb);
    NeutralParsed(sa, sx, sb, parse);
  }

  lemma NeutralText(sa: seq<Value>, sx: seq<Value>, sb: seq<Value>)
    requires AllText(sx)
    ensures AllText(sa + sx + sb) == AllText(sa + sb)
  {
    AllTextAppend(sa + sx, sb);
    AllTextAppend(sa, sx);
    AllTextAppend(sa, sb);
  }

  lemma NeutralParsed(sa: seq<Value>, sx: seq<Value>, sb: seq<Value>, parse: string -> Option<int>)
    requires Parsed(sx, parse) == []
    ensures Parsed(sa + sx + sb, parse) == Parsed(sa + sb, parse)
  {
    ParsedAppend(sa + sx, sb, parse);
    ParsedAppend(sa, sx, parse);
    ParsedAppend(sa, sb, parse);
    assert Parsed(sa, parse) + [] == Parsed(sa, parse);
  }

  /** Inserting a record `x` anywhere leaves the score loop unchanged, when
      `x`'s contribution is nothing: no score key, or a text score that does
      not parse. */
  lemma AverageInsertNeutral(a: seq<Item>, x: Item, b: seq<Item>, parse: string -> Option<int>)
    requires ScoreKey in x.vals ==> x.vals[ScoreKey].Str? && parse(x.vals[ScoreKey].s).None?
    ensures Average(a + [x] + b, parse) == Average(a + b, parse)
  {
    ScoreValuesInsert(a, x, b);
    var sx := ScoreValues([x]);
    assert [x][..0] == [];
    assert ScoreValues([x][..0]) == [];
    assert AllText(sx) && Parsed(sx, parse) == [] by {
      if ScoreKey in x.vals {
        assert sx == [x.vals[ScoreKey]];
        assert sx[..0] == [];
      }
    }
    NeutralValues(ScoreValues(a), sx, ScoreValues(b), parse);
    AverageByScores(a + [x] + b, a + b, parse);
  }

  /** A record without the score key changes nothing, wherever it sits. */
  lemma AvgIgnoresUnscored(a: seq<Item>, x: Item, b: seq<Item>)
    requires ScoreKey !in x.vals
    ensures AvgScore(a + [x] + b) == AvgScore(a + b)
  {
    AverageInsertNeutral(a, x, b, ParseInt);
  }

  /** A score whose text is not an integer adds nothing to the total and
      nothing to the count. */
  lemma AvgSkipsUnparsable(a: seq<Item>, x: Item, b: seq<Item>)
    requires ScoreKey in x.vals && x.vals[ScoreKey].Str? && ParseInt(x.vals[ScoreKey].s).None?
    ensures AvgScore(a + [x] + b) == AvgScore(a + b)
  {
    AverageInsertNeutral(a, x, b, ParseInt);
  }

  lemma {:induction false} SumBounds(xs: seq<int>, lo: int, hi: int)
    requires forall i :: 0 <= i < |xs| ==> lo <= xs[i] <= hi
    ensures |xs| * lo <= Sum(xs) <= |xs| * hi
    decreases |xs|
  {
    if |xs| > 0 {
      SumBounds(xs[..|xs| - 1], lo, hi);
    }
  }

  lemma DivBounds(s: int, n: int, lo: int, hi: int)
    requires n > 0 && n * lo <= s <= n * hi
    ensures lo as real <= s as real / n as real <= hi as real
  {
    var q := s as real / n as real;
    assert q * n as real == s as real;
    assert (n * lo) as real == n as real * lo as real;
    assert (n * hi) as real == n as real * hi as real;
  }

  /** When every parsed score lies in [lo, hi] and at least one parses, a
      returned average lies in [lo, hi] too, and one is returned whenever both
      bounds are within the float range. */
  lemma AvgScoreBounds(items: seq<Item>, lo: int, hi: int)
    requires AllText(ScoreValues(items))
    requires |Parsed(ScoreValues(items), ParseInt)| > 0
    requires forall i :: 0 <= i < |Parsed(ScoreValues(items), ParseInt)| ==> lo <= Parsed(ScoreValues(items), ParseInt)[i] <= hi
    ensures FloatFits(lo as real) && FloatFits(hi as real) ==> AvgScore(items).Ok?
    ensures AvgScore(items).Ok? ==> lo as real <= AvgScore(items).value <= hi as real
  {
    var xs := Parsed(ScoreValues(items), ParseInt);
    AvgScoreSpec(items);
    SumBounds(xs, lo, hi);
    DivBounds(Sum(xs), |xs|, lo, hi);
  }

  /** Nothing parses: the average is 0. */
  lemma AvgScoreNoneParse(items: seq<Item>)
    requires AllText(ScoreValues(items)) && Parsed(ScoreValues(items), ParseInt) == []
    ensures AvgScore(items) == Ok(0.0)
  {
    AvgScoreSpec(items);
  }

  lemma ParseEight(a: string)
    requires a == "8"
    ensures ParseInt(a) == Some(8)
  {
    ParseShow(8, "");
    assert NatDigits(8) == a;
  }

  lemma ParseSix(c: string)
    requires c == "6"
    ensures ParseInt(c) == Some(6)
  {
    ParseShow(6, "");
    assert NatDigits(6) == c;
  }

  lemma ParseNotANumber(b: string)
    requires b == "not-a-number"
    ensures ParseInt(b) == None
  {
    StripIdentity(b);
    ParseIntRejectsNonDigit(b, 0);
  }

  lemma AverageTwo(a: string, c: string, parse: string -> Option<int>)
    requires parse(a) == Some(8) && parse(c) == Some(6)
    ensures Average([Single(ScoreKey, Str(a)), Single(ScoreKey, Str(c))], parse) == Ok(7.0)
  {
    var items := [Single(ScoreKey, Str(a)), Single(ScoreKey, Str(c))];
    assert items[..1] == [Single(ScoreKey, Str(a))];
    assert items[..1][..0] == [];
    assert Totals(items[..1], parse) == Ok((8, 1));
    assert Totals(items, parse) == Ok((14, 2));
  }

  lemma AverageThree(a: string, b: string, c: string, parse: string -> Option<int>)
    requires parse(a) == Some(8) && parse(b) == None && parse(c) == Some(6)
    ensures Average([Single(ScoreKey, Str(a)), Single(ScoreKey, Str(b)), Single(ScoreKey, Str(c))], parse) == Ok(7.0)
  {
    var x := Single(ScoreKey, Str(b));
    var sa := [Single(ScoreKey, Str(a))];
    var sc := [Single(ScoreKey, Str(c))];
    AverageInsertNeutral(sa, x, sc, parse);
    assert sa + [x] + sc == [Single(ScoreKey, Str(a)), Single(ScoreKey, Str(b)), Single(ScoreKey, Str(c))];
    AverageTwo(a, c, parse);
    assert sa + sc == [Single(ScoreKey, Str(a)), Single(ScoreKey, Str(c))];
  }

  /** The score records "8", "not-a-number" and "6" average to 7. */
  lemma AvgScoreExample(a: string, b: string, c: string)
    requires a == "8" && b == "not-a-number" && c == "6"
    ensures AvgScore([Single(ScoreKey, Str(a)), Single(ScoreKey, Str(b)), Single(ScoreKey, Str(c))]) == Ok(7.0)
  {
    ParseEight(a);
    ParseSix(c);
    ParseNotANumber(b);
    AverageThree(a, b, c, ParseInt);
  }

  // ---------------------------------------------------------------------------
  // ipo_evaluator

  /** `zip(a, b)` */
  function Zip(a: seq<string>, b: seq<string>): (r: seq<(string, string)>)
    ensures |r| == Min(|a|, |b|)
    ensures forall i :: 0 <= i < |r| ==> r[i] == (a[i], b[i])
  {
    seq(Min(|a|, |b|), i requires 0 <= i < Min(|a|, |b|) => (a[i], b[i]))
  }

  /** What the loop carries from one question to the next: the records so far
      and the loop variable `topic`, which keeps its last value after a loop
      and is unbound before the first assignment. */
  datatype Loop = Loop(items: seq<Item>, topic: Option<string>)

  /** One `{topic: answer}` record per zipped pair. */
  function AnswerItems(pairs: seq<(string, string)>): (r: seq<Item>)
    ensures |r| == |pairs|
  {
    seq(|pairs|, j requires 0 <= j < |pairs| => Single(pairs[j].0, Str(pairs[j].1)))
  }

  /** One iteration of the outer loop, for question `i`. */
  function Round(q: Dict<string>, ideals: seq<Value>, i: nat, st: Loop,
                 retrieve: string -> QueryResult, llm: (seq<ContextEntry>, string) -> string,
                 judge: (string, Value, Value) -> string): Result<Loop>
  {
    Scored(q, RagPipeline([q], retrieve, llm), ideals, i, st, judge)
  }

  /** The rest of an iteration once `rag_pipeline` has returned `answered`:
      the answer records, the ideal answer and the judge's score. */
  function Scored(q: Dict<string>, answered: Result<Dict<string>>, ideals: seq<Value>, i: nat, st: Loop,
                  judge: (string, Value, Value) -> string): Result<Loop>
  {
    var answers :- answered;
    var vals := Values(answers);
    var pairs := Zip(q.keys, vals);
    var topic := if |pairs| > 0 then Some(pairs[|pairs| - 1].0) else st.topic;
    var answer := if |pairs| > 0 then Str(pairs[|pairs| - 1].1) else ValuesView(vals);
    if i >= |ideals| then Err(IndexErr)
    else if topic.None? then Err(UnboundTopic)
    else
      var score := judge(topic.value, answer, ideals[i]);
      Ok(Loop(st.items + AnswerItems(pairs) + [Single(IdealKey, ideals[i]), Single(ScoreKey, Str(score))], topic))
  }

  function EvalFrom(questions: seq<Dict<string>>, ideals: seq<Value>, i: nat, st: Loop,
                    retrieve: string -> QueryResult, llm: (seq<ContextEntry>, string) -> string,
                    judge: (string, Value, Value) -> string): Result<seq<Item>>
    requires i <= |questions|
    decreases |questions| - i
  {
    if i == |questions| then Ok(st.items)
    else
      var next :- Round(questions[i], ideals, i, st, retrieve, llm, judge);
      EvalFrom(questions, ideals, i + 1, next, retrieve, llm, judge)
  }

  /** `ipo_evaluator(company_questions, ideal_answers)` */
  function Evaluate(questions: seq<Dict<string>>, ideals: seq<Value>,
                    retrieve: string -> QueryResult, llm: (seq<ContextEntry>, string) -> string,
                    judge: (string, Value, Value) -> string): Result<seq<Item>>
  {
    EvalFrom(questions, ideals, 0, Loop([], None), retrieve, llm, judge)
  }

  /** The `ipo_result` summary. */
  datatype Summary = Summary(ipoName: string, average: real, details: seq<Item>)

  /** `ipo_result(ipo_name)`, with the question and ideal-answer tables passed in. */
  function IpoResult(name: string, questions: seq<Dict<string>>, ideals: seq<Value>,
                     retrieve: string -> QueryResult, llm: (seq<ContextEntry>, string) -> string,
                     judge: (string, Value, Value) -> string): Result<Summary>
  {
    var details :- Evaluate(questions, ideals, retrieve, llm, judge);
    var average :- AvgScore(details);
    Ok(Summary(name, average, details))
  }

  // ---------------------------------------------------------------------------
  // Properties of ipo_evaluator and ipo_result

  /** Answering one question dict: the answer map has the dict's keys in the
      dict's order, each mapped to the answer to its own question, and the
      call fails exactly when some question's context cannot be built. */
  lemma RagOneDict(q: Dict<string>, retrieve: string -> QueryResult, llm: (seq<ContextEntry>, string) -> string)
    ensures RagPipeline([q], retrieve, llm).Ok? <==>
      forall j :: 0 <= j < |q.keys| ==> q.keys[j] in q.vals && AnswerTo(q.vals[q.keys[j]], retrieve, llm).Some?
    ensures RagPipeline([q], retrieve, llm).Ok? ==>
      var answers := RagPipeline([q], retrieve, llm).value;
      && answers.keys == q.keys
      && forall j :: 0 <= j < |q.keys| ==>
           (q.keys[j] in q.vals && q.keys[j] in answers.vals &&
            AnswerTo(q.vals[q.keys[j]], retrieve, llm) == Some(answers.vals[q.keys[j]]))
  {
    RagOneAsk(q, retrieve, llm);
    ItemsAnswered(q, retrieve, llm);
    if Ask(Items(q), retrieve, llm).Ok? {
      ItemsAnswers(q, retrieve, llm);
    }
  }

  /** For one dict, the pipeline asks that dict's own questions. */
  lemma RagOneAsk(q: Dict<string>, retrieve: string -> QueryResult, llm: (seq<ContextEntry>, string) -> string)
    ensures RagPipeline([q], retrieve, llm).Ok? == Ask(Items(q), retrieve, llm).Ok?
    ensures RagPipeline([q], retrieve, llm).Ok? ==>
      RagPipeline([q], retrieve, llm).value == Collect(Ask(Items(q), retrieve, llm).value)
  {
    QuestionsOfOne(q);
  }

  lemma QuestionsOfOne(q: Dict<string>)
    ensures Questions([q]) == Items(q)
  {
    assert [q][1..] == [];
    assert Questions([q][1..]) == [];
    assert Items(q) + [] == Items(q);
  }

  /** The questions of one dict can all be asked exactly when each has an answer. */
  lemma ItemsAnswered(q: Dict<string>, retrieve: string -> QueryResult, llm: (seq<ContextEntry>, string) -> string)
    ensures Ask(Items(q), retrieve, llm).Ok? <==>
      forall j :: 0 <= j < |q.keys| ==> q.keys[j] in q.vals && AnswerTo(q.vals[q.keys[j]], retrieve, llm).Some?
  {
    var qs := Items(q);
    AskSpec(qs, retrieve, llm);
    if !Ask(qs, retrieve, llm).Ok? {
      var j :| 0 <= j < |qs| && BuildContext(retrieve(qs[j].1)).Err?;
      assert qs[j].1 == q.vals[q.keys[j]];
      assert AnswerTo(q.vals[q.keys[j]], retrieve, llm).None?;
    }
  }

  /** The answers to one dict's questions keep its keys and pair each with its own answer. */
  lemma ItemsAnswers(q: Dict<string>, retrieve: string -> QueryResult, llm: (seq<ContextEntry>, string) -> string)
    ensures Ask(Items(q), retrieve, llm).Ok? ==>
      var answers := Collect(Ask(Items(q), retrieve, llm).value);
      && answers.keys == q.keys
      && forall j :: 0 <= j < |q.keys| ==>
           (q.keys[j] in q.vals && q.keys[j] in answers.vals &&
            AnswerTo(q.vals[q.keys[j]], retrieve, llm) == Some(answers.vals[q.keys[j]]))
  {
    var qs := Items(q);
    if Ask(qs, retrieve, llm).Ok? {
      AskDistinct(qs, retrieve, llm);
      assert KeysOf(qs) == q.keys;
      forall j | 0 <= j < |q.keys|
        ensures qs[j].0 == q.keys[j] && qs[j].1 == q.vals[q.keys[j]]
      {
      }
    }
  }

  /** The records a question block adds, for a dict with exactly one key. */
  predicate Block(items: seq<Item>, b: nat, questions: seq<Dict<string>>, ideals: seq<Value>,
                  retrieve: string -> QueryResult, llm: (seq<ContextEntry>, string) -> string,
                  judge: (string, Value, Value) -> string)
  {
    && b < |questions| && b < |ideals| && |questions[b].keys| == 1 && 3 * b + 2 < |items|
    && var k := questions[b].keys[0];
    && k in questions[b].vals
    && match AnswerTo(questions[b].vals[k], retrieve, llm)
       case None => false
       case Some(a) =>
         && items[3 * b] == Single(k, Str(a))
         && items[3 * b + 1] == Single(IdealKey, ideals[b])
         && items[3 * b + 2] == Single(ScoreKey, Str(judge(k, Str(a), ideals[b])))
  }

  /** The records of the first `n` questions are in place. */
  predicate Blocks(items: seq<Item>, n: nat, questions: seq<Dict<string>>, ideals: seq<Value>,
                   retrieve: string -> QueryResult, llm: (seq<ContextEntry>, string) -> string,
                   judge: (string, Value, Value) -> string)
  {
    forall b :: 0 <= b < n ==> Block(items, b, questions, ideals, retrieve, llm, judge)
  }

  lemma BlockExtend(items: seq<Item>, more: seq<Item>, b: nat, questions: seq<Dict<string>>, ideals: seq<Value>,
                    retrieve: string -> QueryResult, llm: (seq<ContextEntry>, string) -> string,
                    judge: (string, Value, Value) -> string)
    requires Block(items, b, questions, ideals, retrieve, llm, judge)
    ensures Block(items + more, b, questions, ideals, retrieve, llm, judge)
  {
    assert (items + more)[3 * b] == items[3 * b];
    assert (items + more)[3 * b + 1] == items[3 * b + 1];
    assert (items + more)[3 * b + 2] == items[3 * b + 2];
  }

  /** One round for a single-key question: three records, and the topic is
      that key. */
  lemma RoundSingle(q: Dict<string>, ideals: seq<Value>, i: nat, st: Loop,
                    retrieve: string -> QueryResult, llm: (seq<ContextEntry>, string) -> string,
                    judge: (string, Value, Value) -> string)
    requires |q.keys| == 1
    ensures q.keys[0] in q.vals
    ensures Round(q, ideals, i, st, retrieve, llm, judge).Ok? <==>
      i < |ideals| && AnswerTo(q.vals[q.keys[0]], retrieve, llm).Some?
    ensures Round(q, ideals, i, st, retrieve, llm, judge).Ok? ==>
      var k := q.keys[0];
      var a := AnswerTo(q.vals[k], retrieve, llm).value;
      Round(q, ideals, i, st, retrieve, llm, judge).value ==
        Loop(st.items + [Single(k, Str(a)), Single(IdealKey, ideals[i]), Single(ScoreKey, Str(judge(k, Str(a), ideals[i])))], Some(k))
  {
    RagOneDict(q, retrieve, llm);
    var k := q.keys[0];
    if RagPipeline([q], retrieve, llm).Ok? {
      var answers := RagPipeline([q], retrieve, llm).value;
      var vals := Values(answers);
      assert vals == [answers.vals[k]];
      var pairs := Zip(q.keys, vals);
      assert pairs == [(k, answers.vals[k])];
      assert AnswerItems(pairs) == [Single(k, Str(answers.vals[k]))];
    }
  }

  /** Whether every question from `i` on has an answerable single key. */
  predicate Answerable(questions: seq<Dict<string>>, i: nat, retrieve: string -> QueryResult,
                       llm: (seq<ContextEntry>, string) -> string)
  {
    forall b :: i <= b < |questions| ==>
      (|questions[b].keys| == 1 && questions[b].keys[0] in questions[b].vals &&
       AnswerTo(questions[b].vals[questions[b].keys[0]], retrieve, llm).Some?)
  }

  predicate SingleKeys(questions: seq<Dict<string>>) {
    forall b :: 0 <= b < |questions| ==> |questions[b].keys| == 1
  }

  /** Over single-key questions, the loop from question `i` on succeeds
      exactly when every remaining question is answerable and has an ideal
      answer at its position. */
  lemma {:induction false} EvalFromOk(questions: seq<Dict<string>>, ideals: seq<Value>, i: nat, st: Loop,
                                      retrieve: string -> QueryResult, llm: (seq<ContextEntry>, string) -> string,
                                      judge: (string, Value, Value) -> string)
    requires i <= |questions| && SingleKeys(questions)
    ensures EvalFrom(questions, ideals, i, st, retrieve, llm, judge).Ok? <==>
      (|questions| <= |ideals| || |questions| == i) && Answerable(questions, i, retrieve, llm)
    decreases |questions| - i
  {
    if i < |questions| {
      var q := questions[i];
      RoundSingle(q, ideals, i, st, retrieve, llm, judge);
      var r := Round(q, ideals, i, st, retrieve, llm, judge);
      if r.Ok? {
        EvalFromOk(questions, ideals, i + 1, r.value, retrieve, llm, judge);
        assert Answerable(questions, i, retrieve, llm) <==> Answerable(questions, i + 1, retrieve, llm);
      } else {
        assert EvalFrom(questions, ideals, i, st, retrieve, llm, judge).Err?;
        if i < |ideals| {
          assert !Answerable(questions, i, retrieve, llm);
        }
      }
    }
  }

  /** Appending the records of question `i` to the blocks of the earlier
      questions gives the blocks of questions `0..i`. */
  lemma BlocksStep(items: seq<Item>, i: nat, questions: seq<Dict<string>>, ideals: seq<Value>,
                   retrieve: string -> QueryResult, llm: (seq<ContextEntry>, string) -> string,
                   judge: (string, Value, Value) -> string)
    requires i < |questions| && i < |ideals| && |questions[i].keys| == 1 && |items| == 3 * i
    requires questions[i].keys[0] in questions[i].vals
    requires AnswerTo(questions[i].vals[questions[i].keys[0]], retrieve, llm).Some?
    requires Blocks(items, i, questions, ideals, retrieve, llm, judge)
    ensures var k := questions[i].keys[0];
      var a := AnswerTo(questions[i].vals[k], retrieve, llm).value;
      var added := [Single(k, Str(a)), Single(IdealKey, ideals[i]), Single(ScoreKey, Str(judge(k, Str(a), ideals[i])))];
      Blocks(items + added, i + 1, questions, ideals, retrieve, llm, judge)
  {
    var k := questions[i].keys[0];
    var a := AnswerTo(questions[i].vals[k], retrieve, llm).value;
    var added := [Single(k, Str(a)), Single(IdealKey, ideals[i]), Single(ScoreKey, Str(judge(k, Str(a), ideals[i])))];
    forall b | 0 <= b < i + 1 ensures Block(items + added, b, questions, ideals, retrieve, llm, judge) {
      if b < i {
        BlockExtend(items, added, b, questions, ideals, retrieve, llm, judge);
      } else {
        BlockNew(items, i, questions, ideals, retrieve, llm, judge);
      }
    }
  }

  lemma BlockNew(items: seq<Item>, i: nat, questions: seq<Dict<string>>, ideals: seq<Value>,
                 retrieve: string -> QueryResult, llm: (seq<ContextEntry>, string) -> string,
                 judge: (string, Value, Value) -> string)
    requires i < |questions| && i < |ideals| && |questions[i].keys| == 1 && |items| == 3 * i
    requires questions[i].keys[0] in questions[i].vals
    requires AnswerTo(questions[i].vals[questions[i].keys[0]], retrieve, llm).Some?
    ensures var k := questions[i].keys[0];
      var a := AnswerTo(questions[i].vals[k], retrieve, llm).value;
      var added := [Single(k, Str(a)), Single(IdealKey, ideals[i]), Single(ScoreKey, Str(judge(k, Str(a), ideals[i])))];
      Block(items + added, i, questions, ideals, retrieve, llm, judge)
  {
    var k := questions[i].keys[0];
    var a := AnswerTo(questions[i].vals[k], retrieve, llm).value;
    var added := [Single(k, Str(a)), Single(IdealKey, ideals[i]), Single(ScoreKey, Str(judge(k, Str(a), ideals[i])))];
    assert (items + added)[3 * i] == added[0];
    assert (items + added)[3 * i + 1] == added[1];
    assert (items + added)[3 * i + 2] == added[2];
  }

  /** Over single-key questions, every block laid down so far survives, and
      each new question lays down its own block. */
  lemma {:induction false} EvalFromBlocks(questions: seq<Dict<string>>, ideals: seq<Value>, i: nat, st: Loop,
                                          retrieve: string -> QueryResult, llm: (seq<ContextEntry>, string) -> string,
                                          judge: (string, Value, Value) -> string)
    requires i <= |questions| && SingleKeys(questions)
    requires |st.items| == 3 * i
    requires Blocks(st.items, i, questions, ideals, retrieve, llm, judge)
    ensures EvalFrom(questions, ideals, i, st, retrieve, llm, judge).Ok? ==>
      var items := EvalFrom(questions, ideals, i, st, retrieve, llm, judge).value;
      && |items| == 3 * |questions|
      && Blocks(items, |questions|, questions, ideals, retrieve, llm, judge)
    decreases |questions| - i
  {
    if i < |questions| {
      var r := Round(questions[i], ideals, i, st, retrieve, llm, judge);
      if r.Ok? {
        var next := r.value;
        RoundBlocks(questions, ideals, i, st, retrieve, llm, judge);
        EvalFromBlocks(questions, ideals, i + 1, next, retrieve, llm, judge);
        var rest := EvalFrom(questions, ideals, i + 1, next, retrieve, llm, judge);
        assert EvalFrom(questions, ideals, i, st, retrieve, llm, judge) == rest;
        if rest.Ok? {
          assert Blocks(rest.value, |questions|, questions, ideals, retrieve, llm, judge);
        }
      } else {
        assert EvalFrom(questions, ideals, i, st, retrieve, llm, judge) == Err(r.error);
      }
    } else {
      assert EvalFrom(questions, ideals, i, st, retrieve, llm, judge) == Ok(st.items);
      assert Blocks(st.items, |questions|, questions, ideals, retrieve, llm, judge);
    }
  }

  /** A successful round for single-key question `i` extends the blocks by one. */
  lemma RoundBlocks(questions: seq<Dict<string>>, ideals: seq<Value>, i: nat, st: Loop,
                    retrieve: string -> QueryResult, llm: (seq<ContextEntry>, string) -> string,
                    judge: (string, Value, Value) -> string)
    requires i < |questions| && |questions[i].keys| == 1
    requires |st.items| == 3 * i
    requires Blocks(st.items, i, questions, ideals, retrieve, llm, judge)
    requires Round(questions[i], ideals, i, st, retrieve, llm, judge).Ok?
    ensures var next := Round(questions[i], ideals, i, st, retrieve, llm, judge).value;
      && |next.items| == 3 * (i + 1)
      && Blocks(next.items, i + 1, questions, ideals, retrieve, llm, judge)
  {
    var q := questions[i];
    RoundSingle(q, ideals, i, st, retrieve, llm, judge);
    var k := q.keys[0];
    var a := AnswerTo(q.vals[k], retrieve, llm).value;
    var added := [Single(k, Str(a)), Single(IdealKey, ideals[i]), Single(ScoreKey, Str(judge(k, Str(a), ideals[i])))];
    assert Round(q, ideals, i, st, retrieve, llm, judge).value.items == st.items + added;
    BlocksStep(st.items, i, questions, ideals, retrieve, llm, judge);
  }

  /** With one key per question dict (as in the shipped tables), the output
      is three records per question in question order: the answer under its
      topic, the whole ideal answer paired by position, and the judge's raw
      output on that topic, answer and ideal. The run fails when there are
      fewer ideal answers than questions, or when some context cannot be
      built. */
  lemma EvaluateLayout(questions: seq<Dict<string>>, ideals: seq<Value>,
                       retrieve: string -> QueryResult, llm: (seq<ContextEntry>, string) -> string,
                       judge: (string, Value, Value) -> string)
    requires SingleKeys(questions)
    ensures Evaluate(questions, ideals, retrieve, llm, judge).Ok? <==>
      (|questions| <= |ideals| || |questions| == 0) && Answerable(questions, 0, retrieve, llm)
    ensures Evaluate(questions, ideals, retrieve, llm, judge).Ok? ==>
      var items := Evaluate(questions, ideals, retrieve, llm, judge).value;
      && |items| == 3 * |questions|
      && forall b :: 0 <= b < |questions| ==> Block(items, b, questions, ideals, retrieve, llm, judge)
  {
    EvalFromOk(questions, ideals, 0, Loop([], None), retrieve, llm, judge);
    EvalFromBlocks(questions, ideals, 0, Loop([], None), retrieve, llm, judge);
  }

  /** Running out of ideal answers: ideals are looked up by position, so
      fewer ideal answers than questions always aborts the run. */
  lemma {:induction false} EvalFromShortIdeals(questions: seq<Dict<string>>, ideals: seq<Value>, i: nat, st: Loop,
                                               retrieve: string -> QueryResult, llm: (seq<ContextEntry>, string) -> string,
                                               judge: (string, Value, Value) -> string)
    requires |ideals| < |questions| && i <= |ideals|
    ensures EvalFrom(questions, ideals, i, st, retrieve, llm, judge).Err?
    decreases |ideals| - i
  {
    var r := Round(questions[i], ideals, i, st, retrieve, llm, judge);
    if r.Ok? {
      assert i < |ideals|;
      EvalFromShortIdeals(questions, ideals, i + 1, r.value, retrieve, llm, judge);
    }
  }

  lemma EvaluateShortIdeals(questions: seq<Dict<string>>, ideals: seq<Value>,
                            retrieve: string -> QueryResult, llm: (seq<ContextEntry>, string) -> string,
                            judge: (string, Value, Value) -> string)
    requires |ideals| < |questions|
    ensures Evaluate(questions, ideals, retrieve, llm, judge).Err?
  {
    EvalFromShortIdeals(questions, ideals, 0, Loop([], None), retrieve, llm, judge);
  }

  /** A round for a question dict with no keys: nothing is asked, no answer
      record is written, `company_answer` is the empty `dict_values` view, and
      `topic` keeps its value from the previous round. */
  lemma RoundEmpty(q: Dict<string>, ideals: seq<Value>, i: nat, st: Loop,
                   retrieve: string -> QueryResult, llm: (seq<ContextEntry>, string) -> string,
                   judge: (string, Value, Value) -> string)
    requires |q.keys| == 0
    ensures Round(q, ideals, i, st, retrieve, llm, judge) ==
      if i >= |ideals| then Err(IndexErr)
      else if st.topic.None? then Err(UnboundTopic)
      else Ok(Loop(st.items + [Single(IdealKey, ideals[i]), Single(ScoreKey, Str(judge(st.topic.value, ValuesView([]), ideals[i])))], st.topic))
  {
    RagOneDict(q, retrieve, llm);
    assert RagPipeline([q], retrieve, llm).Ok?;
    ScoredEmpty(q, RagPipeline([q], retrieve, llm).value, ideals, i, st, judge);
  }

  lemma ScoredEmpty(q: Dict<string>, answers: Dict<string>, ideals: seq<Value>, i: nat, st: Loop,
                    judge: (string, Value, Value) -> string)
    requires |q.keys| == 0 && answers.keys == q.keys
    ensures Scored(q, Ok(answers), ideals, i, st, judge) ==
      if i >= |ideals| then Err(IndexErr)
      else if st.topic.None? then Err(UnboundTopic)
      else Ok(Loop(st.items + [Single(IdealKey, ideals[i]), Single(ScoreKey, Str(judge(st.topic.value, ValuesView([]), ideals[i])))], st.topic))
  {
    var vals := Values(answers);
    assert vals == [];
    var pairs := Zip(q.keys, vals);
    assert |pairs| == 0;
    assert AnswerItems(pairs) == [];
    if i < |ideals| && st.topic.Some? {
      var score := judge(st.topic.value, ValuesView(vals), ideals[i]);
      assert st.items + AnswerItems(pairs) + [Single(IdealKey, ideals[i]), Single(ScoreKey, Str(score))]
        == st.items + [Single(IdealKey, ideals[i]), Single(ScoreKey, Str(score))];
    }
  }

  /** A first question dict with no keys aborts the run: `topic` has never
      been assigned (or, with no ideal answers, the lookup fails first). */
  lemma EvaluateEmptyFirst(questions: seq<Dict<string>>, ideals: seq<Value>,
                           retrieve: string -> QueryResult, llm: (seq<ContextEntry>, string) -> string,
                           judge: (string, Value, Value) -> string)
    requires |questions| > 0 && |questions[0].keys| == 0
    ensures Evaluate(questions, ideals, retrieve, llm, judge) == Err(if |ideals| == 0 then IndexErr else UnboundTopic)
  {
    RoundEmpty(questions[0], ideals, 0, Loop([], None), retrieve, llm, judge);
  }

  /** A later question dict with no keys is judged on the previous
      question's topic and on the text of an empty `dict_values` view. */
  lemma EvaluateLeakedTopic(q0: Dict<string>, q1: Dict<string>, ideals: seq<Value>,
                            retrieve: string -> QueryResult, llm: (seq<ContextEntry>, string) -> string,
                            judge: (string, Value, Value) -> string)
    requires |q0.keys| == 1 && |q1.keys| == 0 && |ideals| >= 2
    requires q0.keys[0] in q0.vals && AnswerTo(q0.vals[q0.keys[0]], retrieve, llm).Some?
    ensures var r := Evaluate([q0, q1], ideals, retrieve, llm, judge);
      && r.Ok? && |r.value| == 5
      && r.value[4] == Single(ScoreKey, Str(judge(q0.keys[0], ValuesView([]), ideals[1])))
  {
    var st0 := Loop([], None);
    RoundSingle(q0, ideals, 0, st0, retrieve, llm, judge);
    var st1 := Round(q0, ideals, 0, st0, retrieve, llm, judge).value;
    RoundEmpty(q1, ideals, 1, st1, retrieve, llm, judge);
    var st2 := Round(q1, ideals, 1, st1, retrieve, llm, judge).value;
    assert EvalFrom([q0, q1], ideals, 2, st2, retrieve, llm, judge) == Ok(st2.items);
    assert EvalFrom([q0, q1], ideals, 1, st1, retrieve, llm, judge) == Ok(st2.items);
  }

  /** Every value in every record is text. */
  predicate TextOnly(items: seq<Item>) {
    forall j, k :: 0 <= j < |items| && k in items[j].vals ==> items[j].vals[k].Str?
  }

  lemma {:induction false} TextOnlyScores(items: seq<Item>)
    requires TextOnly(items)
    ensures AllText(ScoreValues(items))
    decreases |items|
  {
    if |items| > 0 {
      var init := items[..|items| - 1];
      assert TextOnly(init) by {
        forall j, k | 0 <= j < |init| && k in init[j].vals ensures init[j].vals[k].Str? {
          assert init[j] == items[j];
        }
      }
      TextOnlyScores(init);
      AllTextAppend(ScoreValues(init), ScoreValues(items) [|ScoreValues(init)|..]);
      assert ScoreValues(init) + ScoreValues(items)[|ScoreValues(init)|..] == ScoreValues(items);
    }
  }

  lemma SliceOfConcat<T>(a: seq<T>, b: seq<T>, c: seq<T>)
    ensures (a + b + c)[..|a|] == a
    ensures (a + b + c)[|a|..|a| + |b|] == b
    ensures (a + b + c)[|a| + |b|..] == c
  {
  }

  /** Whatever the questions, a round appends one text record per key of the
      question dict, then the ideal-answer record and the score record. */
  lemma RoundShape(q: Dict<string>, ideals: seq<Value>, i: nat, st: Loop,
                   retrieve: string -> QueryResult, llm: (seq<ContextEntry>, string) -> string,
                   judge: (string, Value, Value) -> string)
    ensures Round(q, ideals, i, st, retrieve, llm, judge).Ok? ==>
      var next := Round(q, ideals, i, st, retrieve, llm, judge).value;
      && i < |ideals|
      && |next.items| == |st.items| + |q.keys| + 2
      && next.items[..|st.items|] == st.items
      && TextOnly(next.items[|st.items|..|st.items| + |q.keys|])
      && next.items[|st.items| + |q.keys|] == Single(IdealKey, ideals[i])
      && next.items[|st.items| + |q.keys| + 1].keys == [ScoreKey]
      && next.items[|st.items| + |q.keys| + 1].vals[ScoreKey].Str?
  {
    if Round(q, ideals, i, st, retrieve, llm, judge).Ok? {
      RagOneDict(q, retrieve, llm);
      var answers := RagPipeline([q], retrieve, llm).value;
      var pairs := Zip(q.keys, Values(answers));
      assert |pairs| == |q.keys|;
      ScoredItems(q, RagPipeline([q], retrieve, llm), ideals, i, st, judge);
      AnswerItemsText(pairs);
    }
  }

  /** The records of a successful round: the prefix kept, one record per
      zipped answer, the ideal answer, the score. */
  lemma ScoredItems(q: Dict<string>, answered: Result<Dict<string>>, ideals: seq<Value>, i: nat, st: Loop,
                    judge: (string, Value, Value) -> string)
    requires Scored(q, answered, ideals, i, st, judge).Ok?
    ensures answered.Ok?
    ensures var next := Scored(q, answered, ideals, i, st, judge).value;
      var ai := AnswerItems(Zip(q.keys, Values(answered.value)));
      && i < |ideals|
      && |next.items| == |st.items| + |ai| + 2
      && next.items[..|st.items|] == st.items
      && next.items[|st.items|..|st.items| + |ai|] == ai
      && next.items[|st.items| + |ai|] == Single(IdealKey, ideals[i])
      && next.items[|st.items| + |ai| + 1].keys == [ScoreKey]
      && next.items[|st.items| + |ai| + 1].vals[ScoreKey].Str?
  {
    var answers := answered.value;
    var pairs := Zip(q.keys, Values(answers));
    var ai := AnswerItems(pairs);
    var topic := if |pairs| > 0 then Some(pairs[|pairs| - 1].0) else st.topic;
    var answer := if |pairs| > 0 then Str(pairs[|pairs| - 1].1) else ValuesView(Values(answers));
    var tail := [Single(IdealKey, ideals[i]), Single(ScoreKey, Str(judge(topic.value, answer, ideals[i])))];
    assert Scored(q, answered, ideals, i, st, judge) == Ok(Loop(st.items + ai + tail, topic));
    SliceOfConcat(st.items, ai, tail);
  }

  /** Answer records hold text values only. */
  lemma AnswerItemsText(pairs: seq<(string, string)>)
    ensures TextOnly(AnswerItems(pairs))
  {
    var ai := AnswerItems(pairs);
    forall j, k | 0 <= j < |ai| && k in ai[j].vals ensures ai[j].vals[k].Str? {
      assert ai[j] == Single(pairs[j].0, Str(pairs[j].1));
    }
  }

  /** The per-question records: question sizes summed, two extra records each. */
  function RecordCount(questions: seq<Dict<string>>): nat
    decreases |questions|
  {
    if |questions| == 0 then 0
    else RecordCount(questions[..|questions| - 1]) + |questions[|questions| - 1].keys| + 2
  }

  lemma ScoreValuesBlock(prefix: seq<Item>, answers: seq<Item>, ideal: Value, score: Item)
    requires TextOnly(answers) && score.keys == [ScoreKey] && score.vals[ScoreKey].Str?
    ensures AllText(ScoreValues(answers + [Single(IdealKey, ideal), score]))
  {
    var tail := [Single(IdealKey, ideal), score];
    ScoreValuesAppend(answers, tail);
    TextOnlyScores(answers);
    assert tail[..1] == [Single(IdealKey, ideal)] && tail[..1][..0] == [];
    assert ScoreKey[0] != IdealKey[0];
    assert ScoreValues(tail[..1]) == [];
    assert score.keys[0] in score.vals;
    assert ScoreValues(tail) == [score.vals[ScoreKey]];
    AllTextAppend(ScoreValues(answers), ScoreValues(tail));
  }

  /** A sequence cut after a prefix of length `n` and a middle of length `m`,
      with two elements left over. */
  lemma SplitBlock<T>(s: seq<T>, n: nat, m: nat)
    requires |s| == n + m + 2
    ensures s == s[..n] + s[n..]
    ensures s[n..] == s[n..n + m] + [s[n + m], s[n + m + 1]]
  {
    assert s[n..] == s[n..n + m] + s[n + m..];
    assert s[n + m..] == [s[n + m], s[n + m + 1]];
  }

  /** A round keeps every score value text. */
  lemma StepScores(prev: seq<Item>, next: seq<Item>, m: nat, ideal: Value)
    requires |next| == |prev| + m + 2 && next[..|prev|] == prev
    requires TextOnly(next[|prev|..|prev| + m])
    requires next[|prev| + m] == Single(IdealKey, ideal)
    requires next[|prev| + m + 1].keys == [ScoreKey] && next[|prev| + m + 1].vals[ScoreKey].Str?
    requires AllText(ScoreValues(prev))
    ensures AllText(ScoreValues(next))
  {
    var n := |prev|;
    var added := next[n..];
    SplitBlock(next, n, m);
    ScoreValuesBlock(prev, next[n..n + m], ideal, next[n + m + 1]);
    ScoreValuesAppend(prev, added);
    AllTextAppend(ScoreValues(prev), ScoreValues(added));
  }

  lemma RecordCountStep(questions: seq<Dict<string>>, i: nat)
    requires i < |questions|
    ensures RecordCount(questions[..i + 1]) == RecordCount(questions[..i]) + |questions[i].keys| + 2
  {
    assert questions[..i + 1][..i] == questions[..i];
  }

  /** Whatever the question dicts, a successful run writes one record per
      key plus two per question, and every score value is text, so
      `avg_score` never fails on it. */
  lemma {:induction false} EvalFromShape(questions: seq<Dict<string>>, ideals: seq<Value>, i: nat, st: Loop,
                                         retrieve: string -> QueryResult, llm: (seq<ContextEntry>, string) -> string,
                                         judge: (string, Value, Value) -> string)
    requires i <= |questions|
    requires |st.items| == RecordCount(questions[..i]) && AllText(ScoreValues(st.items))
    ensures EvalFrom(questions, ideals, i, st, retrieve, llm, judge).Ok? ==>
      var items := EvalFrom(questions, ideals, i, st, retrieve, llm, judge).value;
      |items| == RecordCount(questions) && AllText(ScoreValues(items))
    decreases |questions| - i
  {
    if i == |questions| {
      assert questions[..i] == questions;
    } else {
      var q := questions[i];
      RoundShape(q, ideals, i, st, retrieve, llm, judge);
      var r := Round(q, ideals, i, st, retrieve, llm, judge);
      if r.Ok? {
        StepScores(st.items, r.value.items, |q.keys|, ideals[i]);
        RecordCountStep(questions, i);
        EvalFromShape(questions, ideals, i + 1, r.value, retrieve, llm, judge);
      }
    }
  }

  /** `ipo_result` fails exactly when the evaluation run fails or the mean of
      its parsable scores is beyond the float range. Otherwise it holds the
      name it was given, the run's records unchanged, and their `avg_score`:
      the mean of the judge outputs that parse as integers. */
  lemma IpoResultSpec(name: string, questions: seq<Dict<string>>, ideals: seq<Value>,
                      retrieve: string -> QueryResult, llm: (seq<ContextEntry>, string) -> string,
                      judge: (string, Value, Value) -> string)
    ensures IpoResult(name, questions, ideals, retrieve, llm, judge).Ok? <==>
      && Evaluate(questions, ideals, retrieve, llm, judge).Ok?
      && FloatFits(Mean(Parsed(ScoreValues(Evaluate(questions, ideals, retrieve, llm, judge).value), ParseInt)))
    ensures var e := Evaluate(questions, ideals, retrieve, llm, judge);
      (e.Ok? && !FloatFits(Mean(Parsed(ScoreValues(e.value), ParseInt)))) ==>
      IpoResult(name, questions, ideals, retrieve, llm, judge) == Err(OverflowErr)
    ensures IpoResult(name, questions, ideals, retrieve, llm, judge).Ok? ==>
      var s := IpoResult(name, questions, ideals, retrieve, llm, judge).value;
      && s.ipoName == name
      && s.details == Evaluate(questions, ideals, retrieve, llm, judge).value
      && |s.details| == RecordCount(questions)
      && s.average == Mean(Parsed(ScoreValues(s.details), ParseInt))
  {
    assert questions[..0] == [];
    EvalFromShape(questions, ideals, 0, Loop([], None), retrieve, llm, judge);
    var e := Evaluate(questions, ideals, retrieve, llm, judge);
    if e.Ok? {
      AvgScoreSpec(e.value);
    }
  }

  /** Record `3b + 2` carries the score; the two records before it do not. */
  predicate ScoredAt(items: seq<Item>, b: nat) {
    3 * b + 2 < |items|
    && ScoreKey !in items[3 * b].vals && ScoreKey !in items[3 * b + 1].vals && ScoreKey in items[3 * b + 2].vals
  }

  lemma ScoreValuesTriple(x0: Item, x1: Item, x2: Item)
    requires ScoreKey !in x0.vals && ScoreKey !in x1.vals && ScoreKey in x2.vals
    ensures ScoreValues([x0, x1, x2]) == [x2.vals[ScoreKey]]
  {
    var s := [x0, x1, x2];
    assert s[..2] == [x0, x1] && s[..2][..1] == [x0] && s[..2][..1][..0] == [];
    assert ScoreValues([x0]) == [];
    assert ScoreValues([x0, x1]) == [];
  }

  lemma {:induction false} ScoreValuesTriples(items: seq<Item>, m: nat)
    requires 3 * m <= |items|
    requires forall b :: 0 <= b < m ==> ScoredAt(items, b)
    ensures |ScoreValues(items[..3 * m])| == m
    ensures forall b :: 0 <= b < m ==>
      ScoreKey in items[3 * b + 2].vals && ScoreValues(items[..3 * m])[b] == items[3 * b + 2].vals[ScoreKey]
  {
    if m > 0 {
      ScoreValuesTriples(items, m - 1);
      var p := items[..3 * (m - 1)];
      var b := m - 1;
      assert ScoredAt(items, b);
      var tri := [items[3 * b], items[3 * b + 1], items[3 * b + 2]];
      assert items[..3 * m] == p + tri;
      ScoreValuesAppend(p, tri);
      ScoreValuesTriple(items[3 * b], items[3 * b + 1], items[3 * b + 2]);
    }
  }

  /** The score values of `items` are the values of records 2, 5, 8, ... */
  predicate JudgedScores(items: seq<Item>, n: nat) {
    && |ScoreValues(items)| == n
    && forall b :: 0 <= b < n ==>
         3 * b + 2 < |items| && ScoreKey in items[3 * b + 2].vals &&
         ScoreValues(items)[b] == items[3 * b + 2].vals[ScoreKey]
  }

  lemma BlocksScored(items: seq<Item>, questions: seq<Dict<string>>, ideals: seq<Value>,
                     retrieve: string -> QueryResult, llm: (seq<ContextEntry>, string) -> string,
                     judge: (string, Value, Value) -> string)
    requires |items| == 3 * |questions| && SingleKeys(questions)
    requires forall b :: 0 <= b < |questions| ==> questions[b].keys[0] != ScoreKey
    requires forall b :: 0 <= b < |questions| ==> Block(items, b, questions, ideals, retrieve, llm, judge)
    ensures JudgedScores(items, |questions|)
  {
    forall b | 0 <= b < |questions| ensures ScoredAt(items, b) {
      assert Block(items, b, questions, ideals, retrieve, llm, judge);
      assert ScoreKey[0] != IdealKey[0];
    }
    ScoreValuesTriples(items, |questions|);
    assert items[..3 * |questions|] == items;
  }

  /** With one key per question dict, none of them `evaluation_score`, the
      score values are exactly the judge outputs, one per question in order;
      so the summary's average is the mean of the judge outputs that parse. */
  lemma IpoResultJudged(name: string, questions: seq<Dict<string>>, ideals: seq<Value>,
                        retrieve: string -> QueryResult, llm: (seq<ContextEntry>, string) -> string,
                        judge: (string, Value, Value) -> string)
    requires SingleKeys(questions)
    requires forall b :: 0 <= b < |questions| ==> questions[b].keys[0] != ScoreKey
    ensures IpoResult(name, questions, ideals, retrieve, llm, judge).Ok? ==>
      var s := IpoResult(name, questions, ideals, retrieve, llm, judge).value;
      && |s.details| == 3 * |questions|
      && JudgedScores(s.details, |questions|)
      && s.average == Mean(Parsed(ScoreValues(s.details), ParseInt))
  {
    IpoResultSpec(name, questions, ideals, retrieve, llm, judge);
    EvaluateLayout(questions, ideals, retrieve, llm, judge);
    var e := Evaluate(questions, ideals, retrieve, llm, judge);
    if e.Ok? {
      BlocksScored(e.value, questions, ideals, retrieve, llm, judge);
    }
  }
}
