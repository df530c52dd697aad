/** Character-level helpers shared by the chunker, the context builder and the
    integer parser: ASCII whitespace, Python's `str.strip()`, `' '.join(...)`
    and the single-pass `str.replace(".txt", "")`. */
module Text {

  /** ASCII whitespace: what `\s` and `str.strip()` match on ASCII text. */
  predicate IsSpace(c: char) {
    c == ' ' || c == '\t' || c == '\n' || c == '\r' || c == '\U{000B}' || c == '\U{000C}'
  }

  /** Drops leading whitespace. */
  function TrimLeft(s: string): (r: string)
    ensures |r| <= |s| && r == s[|s| - |r|..]
    ensures |r| > 0 ==> !IsSpace(r[0])
    ensures forall i :: 0 <= i < |s| - |r| ==> IsSpace(s[i])
  {
    if |s| > 0 && IsSpace(s[0]) then TrimLeft(s[1..]) else s
  }

  /** Drops trailing whitespace. */
  function TrimRight(s: string): (r: string)
    ensures |r| <= |s| && r == s[..|r|]
    ensures |r| > 0 ==> !IsSpace(r[|r| - 1])
    ensures forall i :: |r| <= i < |s| ==> IsSpace(s[i])
  {
    if |s| > 0 && IsSpace(s[|s| - 1]) then TrimRight(s[..|s| - 1]) else s
  }

  /** Python's `str.strip()` without arguments, over ASCII whitespace. */
  function Strip(s: string): string {
    TrimRight(TrimLeft(s))
  }

  /** Number of whitespace characters `Strip` removes at the front. */
  function Lead(s: string): nat {
    |s| - |TrimLeft(s)|
  }

  /** `Strip(s)` is the slice of `s` left after whitespace is removed at both
      ends, and nothing but whitespace is removed. */
  lemma StripShape(s: string)
    ensures Lead(s) + |Strip(s)| <= |s|
    ensures Strip(s) == s[Lead(s)..Lead(s) + |Strip(s)|]
    ensures forall i :: 0 <= i < Lead(s) ==> IsSpace(s[i])
    ensures forall i :: Lead(s) + |Strip(s)| <= i < |s| ==> IsSpace(s[i])
    ensures |Strip(s)| > 0 ==> !IsSpace(Strip(s)[0]) && !IsSpace(Strip(s)[|Strip(s)| - 1])
  {
    StripSlice(s);
    StripTail(s);
    StripEnds(s);
  }

  lemma StripSlice(s: string)
    ensures Lead(s) + |Strip(s)| <= |s|
    ensures Strip(s) == s[Lead(s)..Lead(s) + |Strip(s)|]
  {
    var l := TrimLeft(s);
    var r := TrimRight(l);
    assert l == s[|s| - |l|..];
    assert r == l[..|r|];
  }

  lemma StripTail(s: string)
    ensures forall i :: Lead(s) + |Strip(s)| <= i < |s| ==> IsSpace(s[i])
  {
    var l := TrimLeft(s);
    var a := |s| - |l|;
    var r := TrimRight(l);
    assert Lead(s) == a && Strip(s) == r;
    assert l == s[a..];
    forall i | a + |r| <= i < |s| ensures IsSpace(s[i]) {
      assert IsSpace(l[i - a]);
      assert l[i - a] == s[i];
    }
  }

  lemma StripEnds(s: string)
    ensures |Strip(s)| > 0 ==> !IsSpace(Strip(s)[0]) && !IsSpace(Strip(s)[|Strip(s)| - 1])
  {
    var l := TrimLeft(s);
    var r := TrimRight(l);
    if |r| > 0 {
      assert r[0] == l[0];
    }
  }

  /** Stripping is the identity on strings that neither start nor end with whitespace. */
  lemma StripIdentity(s: string)
    requires |s| > 0 && !IsSpace(s[0]) && !IsSpace(s[|s| - 1])
    ensures Strip(s) == s
  {
  }

  /** The stripped text is empty exactly when the input is all whitespace. */
  lemma StripEmpty(s: string)
    ensures Strip(s) == [] <==> forall i :: 0 <= i < |s| ==> IsSpace(s[i])
  {
  }

  /** Python's `' '.join(xs)`. */
  function Join(xs: seq<string>): string {
    if |xs| == 0 then ""
    else if |xs| == 1 then xs[0]
    else xs[0] + " " + Join(xs[1..])
  }

  /** Sum of the lengths of the strings in `xs`. */
  function TotalLen(xs: seq<string>): nat {
    if |xs| == 0 then 0 else |xs[0]| + TotalLen(xs[1..])
  }

  /** Concatenation without separators. */
  function Concat(xs: seq<string>): string {
    if |xs| == 0 then "" else xs[0] + Concat(xs[1..])
  }

  lemma {:induction false} JoinLength(xs: seq<string>)
    ensures |xs| > 0 ==> |Join(xs)| == TotalLen(xs) + |xs| - 1
    ensures |xs| == 0 ==> Join(xs) == ""
  {
    if |xs| > 1 {
      JoinLength(xs[1..]);
    }
  }

  /** Appending one string to a join adds it after a single space. */
  lemma {:induction false} JoinAppend(xs: seq<string>, y: string)
    ensures |xs| > 0 ==> Join(xs + [y]) == Join(xs) + " " + y
    ensures |xs| == 0 ==> Join(xs + [y]) == y
  {
    if |xs| > 1 {
      assert (xs + [y])[1..] == xs[1..] + [y];
      JoinAppend(xs[1..], y);
    } else if |xs| == 1 {
      assert (xs + [y])[1..] == [y];
    }
  }

  /** Joining two non-empty runs puts exactly one space between them. */
  lemma {:induction false} JoinConcat(a: seq<string>, b: seq<string>)
    requires |a| > 0 && |b| > 0
    ensures Join(a + b) == Join(a) + " " + Join(b)
  {
    if |a| == 1 {
      assert (a + b)[0] == a[0];
      assert (a + b)[1..] == b;
    } else {
      assert (a + b)[0] == a[0];
      assert (a + b)[1..] == a[1..] + b;
      JoinConcat(a[1..], b);
    }
  }

  lemma {:induction false} TotalLenAppend(a: seq<string>, b: seq<string>)
    ensures TotalLen(a + b) == TotalLen(a) + TotalLen(b)
  {
    if |a| == 0 {
      assert a + b == b;
    } else {
      assert (a + b)[1..] == a[1..] + b;
      TotalLenAppend(a[1..], b);
    }
  }

  /** The non-whitespace characters of `s`, in order. */
  function NoSpace(s: string): string {
    if |s| == 0 then ""
    else if IsSpace(s[0]) then NoSpace(s[1..])
    else [s[0]] + NoSpace(s[1..])
  }

  lemma {:induction false} NoSpaceAppend(a: string, b: string)
    ensures NoSpace(a + b) == NoSpace(a) + NoSpace(b)
  {
    if |a| == 0 {
      assert a + b == b;
    } else {
      assert (a + b)[0] == a[0];
      assert (a + b)[1..] == a[1..] + b;
      NoSpaceAppend(a[1..], b);
    }
  }

  lemma {:induction false} NoSpaceAllSpace(s: string)
    requires forall i :: 0 <= i < |s| ==> IsSpace(s[i])
    ensures NoSpace(s) == ""
  {
    if |s| > 0 {
      NoSpaceAllSpace(s[1..]);
    }
  }

  /** A string has non-whitespace content exactly when `NoSpace` keeps something. */
  lemma {:induction false} NoSpaceEmpty(s: string)
    ensures NoSpace(s) == "" <==> forall i :: 0 <= i < |s| ==> IsSpace(s[i])
  {
    if |s| > 0 {
      NoSpaceEmpty(s[1..]);
      if NoSpace(s) == "" {
        forall i | 0 <= i < |s| ensures IsSpace(s[i]) {
          if i > 0 { assert s[1..][i - 1] == s[i]; }
        }
      }
    }
  }

  /** Stripping loses only whitespace. */
  lemma StripNoSpace(s: string)
    ensures NoSpace(Strip(s)) == NoSpace(s)
  {
    TrimLeftNoSpace(s);
    TrimRightNoSpace(TrimLeft(s));
  }

  lemma TrimLeftNoSpace(s: string)
    ensures NoSpace(TrimLeft(s)) == NoSpace(s)
  {
    var l := TrimLeft(s);
    var p := s[..|s| - |l|];
    assert s == p + l;
    NoSpaceAppend(p, l);
    NoSpaceAllSpace(p);
  }

  lemma TrimRightNoSpace(s: string)
    ensures NoSpace(TrimRight(s)) == NoSpace(s)
  {
    var r := TrimRight(s);
    var q := s[|r|..];
    assert s == r + q;
    NoSpaceAppend(r, q);
    NoSpaceAllSpace(q);
  }

  /** A join differs from the plain concatenation only by whitespace. */
  lemma {:induction false} JoinNoSpace(xs: seq<string>)
    ensures NoSpace(Join(xs)) == NoSpace(Concat(xs))
  {
    if |xs| == 1 {
      assert Concat(xs) == xs[0] + Concat(xs[1..]);
      assert xs[0] + "" == xs[0];
    } else if |xs| > 1 {
      JoinNoSpace(xs[1..]);
      NoSpaceAppend(xs[0] + " ", Join(xs[1..]));
      NoSpaceAppend(xs[0], " ");
      NoSpaceAppend(xs[0], Concat(xs[1..]));
      assert NoSpace(" ") == NoSpace(" "[1..]) == "";
      assert NoSpace(xs[0]) + "" == NoSpace(xs[0]);
    }
  }

  lemma {:induction false} ConcatAppend(a: seq<string>, b: seq<string>)
    ensures Concat(a + b) == Concat(a) + Concat(b)
  {
    if |a| == 0 {
      assert a + b == b;
    } else {
      assert (a + b)[1..] == a[1..] + b;
      ConcatAppend(a[1..], b);
    }
  }

  // ---------------------------------------------------------------------------
  // `str.replace(".txt", "")`

  const Txt: string := ".txt"

  /** Whether ".txt" occurs in `s` at position `i`. */
  predicate TxtAt(s: string, i: nat) {
    i + 4 <= |s| && s[i] == '.' && s[i + 1] == 't' && s[i + 2] == 'x' && s[i + 3] == 't'
  }

  /** Whether ".txt" occurs anywhere in `s`. */
  predicate ContainsTxt(s: string) {
    exists i: nat | i < |s| :: TxtAt(s, i)
  }

  /** Python's `s.replace(".txt", "")`: one left-to-right pass that deletes
      non-overlapping occurrences; text brought together by a deletion is not
      scanned again. */
  function RemoveTxt(s: string): (r: string)
    ensures |r| <= |s|
  {
    if |s| < 4 then s
    else if TxtAt(s, 0) then RemoveTxt(s[4..])
    else [s[0]] + RemoveTxt(s[1..])
  }

  /** An occurrence in a suffix is an occurrence in the whole string. */
  lemma TxtAtShift(s: string, k: nat, i: nat)
    requires k <= |s|
    ensures TxtAt(s[k..], i) == TxtAt(s, i + k)
  {
  }

  /** A name without ".txt" is left unchanged (for instance "x.pdf"). */
  lemma {:induction false} RemoveTxtAbsent(s: string)
    requires !ContainsTxt(s)
    ensures RemoveTxt(s) == s
  {
    if |s| >= 4 {
      assert !TxtAt(s, 0);
      assert !ContainsTxt(s[1..]) by {
        forall i: nat | i < |s[1..]| ensures !TxtAt(s[1..], i) {
          TxtAtShift(s, 1, i);
        }
      }
      RemoveTxtAbsent(s[1..]);
    }
  }

  /** Removing the extension from `base + ".txt"` gives back `base` when `base`
      itself has no ".txt" ("report.txt" becomes "report"). */
  lemma {:induction false} RemoveTxtSuffix(base: string)
    requires !ContainsTxt(base)
    ensures RemoveTxt(base + Txt) == base
  {
    var s := base + Txt;
    if |base| == 0 {
      assert TxtAt(s, 0);
      assert s[4..] == "";
    } else {
      assert !TxtAt(s, 0) by {
        if |base| >= 4 {
          assert !TxtAt(base, 0);
        } else {
          var k := |base|;
          assert s[k] == '.';
        }
      }
      assert s[1..] == base[1..] + Txt;
      assert !ContainsTxt(base[1..]) by {
        forall i: nat | i < |base[1..]| ensures !TxtAt(base[1..], i) {
          TxtAtShift(base, 1, i);
        }
      }
      RemoveTxtSuffix(base[1..]);
      assert [base[0]] + base[1..] == base;
    }
  }

  /** The replacement is a single pass: deleting one occurrence can bring a new
      ".txt" together, which stays in the result. */
  lemma RemoveTxtSinglePass()
    ensures RemoveTxt("x.t.txtxt") == "x.txt"
    ensures ContainsTxt(RemoveTxt("x.t.txtxt"))
  {
    var s := "x.t.txtxt";
    assert !TxtAt(s, 0) && s[1..] == ".t.txtxt";
    assert !TxtAt(s[1..], 0) && s[1..][1..] == "t.txtxt";
    assert !TxtAt(s[2..], 0) && s[2..][1..] == ".txtxt";
    assert TxtAt(s[3..], 0) && s[3..][4..] == "xt";
    assert RemoveTxt("xt") == "xt";
    assert RemoveTxt(s[3..]) == "xt";
    assert RemoveTxt(s[2..]) == "txt";
    assert RemoveTxt(s[1..]) == ".txt";
    assert RemoveTxt(s) == "x.txt";
    assert TxtAt("x.txt", 1);
  }
}
