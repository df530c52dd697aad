/** The sentence splitter at the front of the chunker:
    `re.split(r'(?<=[.!?])\s+', text.strip())`, then every piece stripped and
    empty pieces dropped. A split happens at every maximal run of whitespace
    that directly follows `.`, `!` or `?`. */
module Sentences {
  import opened Text

  predicate IsTerminal(c: char) {
    c == '.' || c == '!' || c == '?'
  }

  /** Position `k` of `s` starts a whitespace run that follows a terminal mark. */
  predicate BoundaryAt(s: string, k: int) {
    0 < k < |s| && IsTerminal(s[k - 1]) && IsSpace(s[k])
  }

  /** `s` contains no split point. */
  predicate NoBoundary(s: string) {
    forall k :: 0 < k < |s| ==> !BoundaryAt(s, k)
  }

  /** The pieces `re.split` produces from `s`, where `cur` is the text of the
      piece read so far. The regex scan resumes after the whitespace run it
      consumed, so the next piece starts at a non-whitespace character. */
  function SplitFrom(s: string, cur: string): seq<string>
    decreases |s|
  {
    if |s| == 0 then [cur]
    else if IsSpace(s[0]) && |cur| > 0 && IsTerminal(cur[|cur| - 1]) then [cur] + SplitFrom(TrimLeft(s), "")
    else SplitFrom(s[1..], cur + [s[0]])
  }

  /** `[p.strip() for p in pieces if p.strip()]` */
  function Clean(pieces: seq<string>): seq<string> {
    if |pieces| == 0 then []
    else if Strip(pieces[0]) == "" then Clean(pieces[1..])
    else [Strip(pieces[0])] + Clean(pieces[1..])
  }

  /** The sentences of `text`, as `_split_text_into_chunks` splits and cleans them before packing. */
  function SplitSentences(text: string): seq<string> {
    Clean(SplitFrom(Strip(text), ""))
  }

  predicate EndsTerminal(s: string) {
    |s| > 0 && IsTerminal(s[|s| - 1])
  }

  /** A sentence as the splitter returns it: non-empty, stripped, without an
      inner split point. */
  predicate IsSentence(s: string) {
    |s| > 0 && !IsSpace(s[0]) && !IsSpace(s[|s| - 1]) && NoBoundary(s)
  }

  /** A run of sentences as the splitter returns it: every sentence but the
      last ends with a terminal mark. */
  predicate WellFormed(ss: seq<string>) {
    && (forall i :: 0 <= i < |ss| ==> IsSentence(ss[i]))
    && (forall i :: 0 <= i < |ss| - 1 ==> EndsTerminal(ss[i]))
  }

  // ---------------------------------------------------------------------------
  // The splitter's output is well formed.

  lemma NoBoundarySlice(s: string, a: int, b: int)
    requires NoBoundary(s) && 0 <= a <= b <= |s|
    ensures NoBoundary(s[a..b])
  {
    forall k | 0 < k < b - a ensures !BoundaryAt(s[a..b], k) {
      assert !BoundaryAt(s, a + k);
    }
  }

  lemma {:induction false} SplitFromShape(s: string, cur: string)
    requires NoBoundary(cur)
    ensures var ps := SplitFrom(s, cur);
      && |ps| > 0
      && (forall i :: 0 <= i < |ps| ==> NoBoundary(ps[i]))
      && (forall i :: 0 <= i < |ps| - 1 ==> EndsTerminal(ps[i]))
    decreases |s|
  {
    if |s| == 0 {
    } else if IsSpace(s[0]) && |cur| > 0 && IsTerminal(cur[|cur| - 1]) {
      SplitFromShape(TrimLeft(s), "");
      var rest := SplitFrom(TrimLeft(s), "");
      assert SplitFrom(s, cur) == [cur] + rest;
    } else {
      var next := cur + [s[0]];
      forall k | 0 < k < |next| ensures !BoundaryAt(next, k) {
        if k < |cur| {
          assert !BoundaryAt(cur, k);
        }
      }
      SplitFromShape(s[1..], next);
    }
  }

  lemma StripKeepsEnd(p: string)
    requires EndsTerminal(p)
    ensures EndsTerminal(Strip(p))
  {
    StripShape(p);
    StripEmpty(p);
    var r := Strip(p);
    assert |r| > 0;
    assert Lead(p) + |r| == |p|;
    assert r[|r| - 1] == p[|p| - 1];
  }

  lemma StripSentence(p: string)
    requires NoBoundary(p) && Strip(p) != ""
    ensures IsSentence(Strip(p))
  {
    StripShape(p);
    NoBoundarySlice(p, Lead(p), Lead(p) + |Strip(p)|);
  }

  lemma WellFormedCons(p: string, rest: seq<string>)
    requires IsSentence(p) && WellFormed(rest)
    requires |rest| > 0 ==> EndsTerminal(p)
    ensures WellFormed([p] + rest)
  {
    var ss := [p] + rest;
    forall i | 0 <= i < |ss| ensures IsSentence(ss[i]) {
      if i > 0 { assert ss[i] == rest[i - 1]; }
    }
    forall i | 0 <= i < |ss| - 1 ensures EndsTerminal(ss[i]) {
      if i > 0 { assert ss[i] == rest[i - 1]; }
    }
  }

  lemma {:induction false} CleanShape(ps: seq<string>)
    requires forall i :: 0 <= i < |ps| ==> NoBoundary(ps[i])
    requires forall i :: 0 <= i < |ps| - 1 ==> EndsTerminal(ps[i])
    ensures WellFormed(Clean(ps))
  {
    if |ps| > 0 {
      var tail := ps[1..];
      assert forall i :: 0 <= i < |tail| ==> NoBoundary(tail[i]) by {
        forall i | 0 <= i < |tail| ensures NoBoundary(tail[i]) { assert tail[i] == ps[i + 1]; }
      }
      assert forall i :: 0 <= i < |tail| - 1 ==> EndsTerminal(tail[i]) by {
        forall i | 0 <= i < |tail| - 1 ensures EndsTerminal(tail[i]) { assert tail[i] == ps[i + 1]; }
      }
      CleanShape(tail);
      var p := Strip(ps[0]);
      if p != "" {
        StripSentence(ps[0]);
        var rest := Clean(tail);
        if |rest| > 0 {
          assert |ps| > 1;
          StripKeepsEnd(ps[0]);
        }
        WellFormedCons(p, rest);
      }
    }
  }

  /** Every sentence is non-empty, stripped and free of inner split points, and
      every sentence but the last ends with `.`, `!` or `?`. */
  lemma SplitSentencesWellFormed(text: string)
    ensures WellFormed(SplitSentences(text))
  {
    SplitFromShape(Strip(text), "");
    CleanShape(SplitFrom(Strip(text), ""));
  }

  // ---------------------------------------------------------------------------
  // Re-splitting a joined run of sentences gives the run back.

  lemma {:induction false} SplitFromWord(w: string, rest: string, cur: string)
    requires NoBoundary(cur + w)
    ensures SplitFrom(w + rest, cur) == SplitFrom(rest, cur + w)
    decreases |w|
  {
    if |w| == 0 {
      assert w + rest == rest && cur + w == cur;
    } else {
      var s := w + rest;
      assert s[0] == w[0];
      if |cur| > 0 {
        assert !BoundaryAt(cur + w, |cur|);
      }
      assert s[1..] == w[1..] + rest;
      assert (cur + [w[0]]) + w[1..] == cur + w;
      SplitFromWord(w[1..], rest, cur + [w[0]]);
    }
  }

  lemma {:induction false} JoinEnds(run: seq<string>)
    requires |run| > 0 && forall i :: 0 <= i < |run| ==> |run[i]| > 0
    ensures |Join(run)| > 0
    ensures Join(run)[0] == run[0][0]
    ensures Join(run)[|Join(run)| - 1] == run[|run| - 1][|run[|run| - 1]| - 1]
  {
    if |run| > 1 {
      JoinEnds(run[1..]);
    }
  }

  lemma {:induction false} SplitJoinPieces(run: seq<string>)
    requires |run| > 0 && WellFormed(run)
    ensures SplitFrom(Join(run), "") == run
  {
    var w := run[0];
    if |run| == 1 {
      assert "" + w == w;
      SplitFromWord(w, "", "");
      assert w + "" == w;
    } else {
      var tail := run[1..];
      WellFormedTail(run);
      SplitJoinPieces(tail);
      SplitJoinCons(run);
      assert [w] + tail == run;
    }
  }

  lemma WellFormedTail(run: seq<string>)
    requires |run| > 1 && WellFormed(run)
    ensures WellFormed(run[1..]) && IsSentence(run[0]) && EndsTerminal(run[0])
  {
    var tail := run[1..];
    forall i | 0 <= i < |tail| - 1 ensures EndsTerminal(tail[i]) {
      assert tail[i] == run[i + 1];
    }
    forall i | 0 <= i < |tail| ensures IsSentence(tail[i]) {
      assert tail[i] == run[i + 1];
    }
  }

  /** After a terminal sentence, the joining space is a split point. */
  lemma SplitJoinCons(run: seq<string>)
    requires |run| > 1 && WellFormed(run[1..]) && IsSentence(run[0]) && EndsTerminal(run[0])
    ensures SplitFrom(Join(run), "") == [run[0]] + SplitFrom(Join(run[1..]), "")
  {
    var j := Join(run[1..]);
    JoinEnds(run[1..]);
    assert Join(run) == run[0] + (" " + j);
    SplitAtSpace(run[0], j);
  }

  lemma SplitAtSpace(w: string, j: string)
    requires IsSentence(w) && EndsTerminal(w)
    requires |j| > 0 && !IsSpace(j[0])
    ensures SplitFrom(w + (" " + j), "") == [w] + SplitFrom(j, "")
  {
    assert "" + w == w;
    SplitFromWord(w, " " + j, "");
    assert (" " + j)[1..] == j;
    assert TrimLeft(" " + j) == j;
  }

  lemma CleanCons(p: string, rest: seq<string>)
    requires IsSentence(p)
    ensures Clean([p] + rest) == [p] + Clean(rest)
  {
    StripIdentity(p);
    assert ([p] + rest)[1..] == rest;
  }

  lemma {:induction false} CleanIdentity(run: seq<string>)
    requires forall i :: 0 <= i < |run| ==> IsSentence(run[i])
    ensures Clean(run) == run
  {
    if |run| > 0 {
      var rest := run[1..];
      assert run == [run[0]] + rest;
      CleanCons(run[0], rest);
      CleanIdentity(rest);
    }
  }

  /** Splitting `' '.join(run)` for any run of sentences the splitter could have
      produced gives `run` back. In particular re-splitting a packed chunk
      yields exactly the sentences that were packed into it. */
  lemma SplitJoinRoundTrip(run: seq<string>)
    requires WellFormed(run)
    ensures SplitSentences(Join(run)) == run
  {
    if |run| == 0 {
      assert Strip("") == "";
      assert SplitFrom("", "") == [""];
    } else {
      JoinEnds(run);
      StripIdentity(Join(run));
      SplitJoinPieces(run);
      CleanIdentity(run);
    }
  }

  // ---------------------------------------------------------------------------
  // No text is lost: only whitespace differs.

  lemma {:induction false} SplitFromNoSpace(s: string, cur: string)
    ensures NoSpace(Concat(SplitFrom(s, cur))) == NoSpace(cur + s)
    decreases |s|
  {
    if |s| == 0 {
      assert Concat([cur]) == cur + Concat([]);
      assert cur + "" == cur && cur + s == cur;
    } else if IsSpace(s[0]) && |cur| > 0 && IsTerminal(cur[|cur| - 1]) {
      var t := TrimLeft(s);
      SplitFromNoSpace(t, "");
      var rest := SplitFrom(t, "");
      assert SplitFrom(s, cur) == [cur] + rest;
      BreakNoSpace(cur, s, rest);
    } else {
      SplitFromNoSpace(s[1..], cur + [s[0]]);
      assert SplitFrom(s, cur) == SplitFrom(s[1..], cur + [s[0]]);
      assert (cur + [s[0]]) + s[1..] == cur + s;
    }
  }

  /** At a sentence break the whitespace run is dropped and nothing else. */
  lemma BreakNoSpace(cur: string, s: string, rest: seq<string>)
    requires NoSpace(Concat(rest)) == NoSpace("" + TrimLeft(s))
    ensures NoSpace(Concat([cur] + rest)) == NoSpace(cur + s)
  {
    assert Concat([cur] + rest) == cur + Concat(rest);
    assert "" + TrimLeft(s) == TrimLeft(s);
    NoSpaceAppend(cur, Concat(rest));
    NoSpaceAppend(cur, s);
    TrimLeftNoSpace(s);
  }

  lemma {:induction false} CleanNoSpace(ps: seq<string>)
    ensures NoSpace(Concat(Clean(ps))) == NoSpace(Concat(ps))
  {
    if |ps| > 0 {
      CleanNoSpace(ps[1..]);
      StripNoSpace(ps[0]);
      NoSpaceAppend(ps[0], Concat(ps[1..]));
      var p := Strip(ps[0]);
      if p != "" {
        assert Concat([p] + Clean(ps[1..])) == p + Concat(Clean(ps[1..]));
        NoSpaceAppend(p, Concat(Clean(ps[1..])));
      } else {
        assert NoSpace(p) == "";
      }
    }
  }

  /** Splitting is lossless: the sentences joined with single spaces hold exactly
      the non-whitespace characters of the text, in the same order. */
  lemma SplitSentencesLossless(text: string)
    ensures NoSpace(Join(SplitSentences(text))) == NoSpace(text)
  {
    var pieces := SplitFrom(Strip(text), "");
    JoinNoSpace(SplitSentences(text));
    CleanNoSpace(pieces);
    SplitFromNoSpace(Strip(text), "");
    assert "" + Strip(text) == Strip(text);
    StripNoSpace(text);
  }

  /** Empty or whitespace-only text, and only such text, has no sentences. */
  lemma SplitSentencesEmpty(text: string)
    ensures SplitSentences(text) == [] <==> forall i :: 0 <= i < |text| ==> IsSpace(text[i])
  {
    SplitSentencesLossless(text);
    NoSpaceEmpty(text);
    StripEmpty(text);
    if forall i :: 0 <= i < |text| ==> IsSpace(text[i]) {
      assert SplitFrom("", "") == [""];
    }
  }
}
