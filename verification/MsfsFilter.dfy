/** The directory filter accepts exactly its language for exactly the filters of one form. */
module MsfsFilter {
  import opened Bytes
  import opened MsfsDir

  /** For every name without a star, the filter accepts it if and only if it is in the language. */
  ghost predicate Complete(filter: seq<byte>) {
    forall name: seq<byte> :: NulFree(name) && STAR !in name ==> (Accepts(name, 0, filter, 0) <==> Glob(name, filter))
  }

  /** The literals of a filter from `q` on. */
  function Literals(filter: seq<byte>, q: nat): seq<byte>
    requires q <= |filter|
    decreases |filter| - q
  {
    if q == |filter| then []
    else if IsWild(filter[q]) then Literals(filter, q + 1)
    else [filter[q]] + Literals(filter, q + 1)
  }

  predicate Plain(name: seq<byte>) {
    NulFree(name) && STAR !in name
  }

  lemma {:induction false} LiteralsMatch(filter: seq<byte>, q: nat)
    requires q <= |filter| && NulFree(filter)
    ensures Glob(Literals(filter, q), filter[q..]) && Plain(Literals(filter, q))
    decreases |filter| - q
  {
    if q < |filter| {
      LiteralsMatch(filter, q + 1);
      var l := Literals(filter, q);
      assert filter[q..][1..] == filter[q + 1..];
      if filter[q] == STAR {
        assert l[0..] == l;
        StarTakes(l, filter, q, 0);
      } else if filter[q] != QUESTION {
        assert l[1..] == Literals(filter, q + 1);
      }
    }
  }

  lemma {:induction false} LiteralsSkip(filter: seq<byte>, q: nat)
    requires q <= |filter|
    ensures Literals(filter, q) == Literals(filter, SkipWild(filter, q))
    decreases |filter| - q
  {
    if q < |filter| && IsWild(filter[q]) {
      LiteralsSkip(filter, q + 1);
    }
  }

  /** A name that is accepted is at least as long as there are literals. */
  lemma {:induction false} AcceptsLength(name: seq<byte>, p: nat, filter: seq<byte>, q: nat)
    requires p <= |name| && q <= |filter| && Accepts(name, p, filter, q)
    ensures |Literals(filter, q)| <= |name| - p
    decreases |filter| - q
  {
    if p == |name| || q == |filter| {
      LiteralsSkip(filter, q);
    } else if name[p] == filter[q] || filter[q] == QUESTION {
      AcceptsLength(name, p + 1, filter, q + 1);
    } else {
      var q' := SkipWild(filter, q + 1);
      LiteralsSkip(filter, q + 1);
      if q' < |filter| {
        AcceptsLength(name, Seek(name, p, filter[q']) + 1, filter, q' + 1);
      }
    }
  }

  /** Question marks alone accept no more characters than there are of them. */
  lemma {:induction false} QuestionsLength(name: seq<byte>, p: nat, filter: seq<byte>, q: nat)
    requires p <= |name| && q <= |filter| && SkipWild(filter, q) == |filter| && STAR !in filter[q..]
    requires Accepts(name, p, filter, q)
    ensures |name| - p <= |filter| - q
    decreases |filter| - q
  {
    if p < |name| && q < |filter| {
      assert filter[q] in filter[q..];
      assert filter[q..] == [filter[q]] + filter[q + 1..];
      QuestionsLength(name, p + 1, filter, q + 1);
    }
  }

  lemma PlainJoin(a: seq<byte>, b: seq<byte>)
    requires Plain(a) && Plain(b)
    ensures Plain(a + b)
  {
  }

  /** A star, other wildcards and a literal, when the name goes on with that literal. */
  lemma StarThenLiteral(pre: seq<byte>, t: seq<byte>, filter: seq<byte>, q: nat)
    requires q < |filter| && filter[q] == STAR && SkipWild(filter, q) < |filter| && STAR !in t
    requires t != [] && t[0] == filter[SkipWild(filter, q)]
    ensures Accepts(pre + t, |pre|, filter, q) <==> Accepts(pre + t, |pre| + 1, filter, SkipWild(filter, q) + 1)
  {
    hide Accepts;
    var name := pre + t;
    assert name[|pre|] == t[0] && t[0] in t;
    AcceptsStar(name, |pre|, filter, q, |pre|);
  }

  /** A question mark takes a character that the literals need. */
  lemma RefuseQuestion(pre: seq<byte>, filter: seq<byte>, q: nat) returns (t: seq<byte>)
    requires q < |filter| && filter[q] == QUESTION && SkipWild(filter, q) < |filter| && NulFree(filter)
    ensures Glob(t, filter[q..]) && Plain(t) && !Accepts(pre + t, |pre|, filter, q)
  {
    hide Glob;
    t := Literals(filter, q);
    LiteralsMatch(filter, q);
    LiteralsSkip(filter, q);
    if Accepts(pre + t, |pre|, filter, q) {
      AcceptsLength(pre + t, |pre| + 1, filter, q + 1);
    }
  }

  /** Two literals in a row, or a literal at the end: the first occurrence of the first need not be the right one. */
  lemma RefusePair(pre: seq<byte>, filter: seq<byte>, q: nat) returns (t: seq<byte>)
    requires q < |filter| && filter[q] == STAR && SkipWild(filter, q) < |filter| && NulFree(filter)
    requires var r := SkipWild(filter, q); r + 1 == |filter| || !IsWild(filter[r + 1])
    ensures Glob(t, filter[q..]) && Plain(t) && !Accepts(pre + t, |pre|, filter, q)
  {
    hide Glob;
    var r := SkipWild(filter, q);
    var l := Literals(filter, q);
    LiteralsMatch(filter, q + 1);
    LiteralsMatch(filter, q);
    LiteralsSkip(filter, q);
    var z: seq<byte> := if r + 1 == |filter| then [] else [if filter[r + 1] == 1 then 2 else 1];
    t := [filter[r]] + z + l;
    assert t[1 + |z|..] == l;
    StarTakes(t, filter, q, 1 + |z|);
    assert Plain([filter[r]] + z);
    PlainJoin([filter[r]] + z, l);
    StarThenLiteral(pre, t, filter, q);
    if r + 1 < |filter| {
      assert (pre + t)[|pre| + 1] == z[0];
    }
  }

  /** A literal, then question marks: after the first occurrence more is left than they take. */
  lemma RefuseQuestions(pre: seq<byte>, filter: seq<byte>, q: nat) returns (t: seq<byte>)
    requires q < |filter| && filter[q] == STAR && SkipWild(filter, q) < |filter| && NulFree(filter)
    requires var r := SkipWild(filter, q); SkipWild(filter, r + 1) == |filter| && STAR !in filter[r + 1..]
    ensures Glob(t, filter[q..]) && Plain(t) && !Accepts(pre + t, |pre|, filter, q)
  {
    hide Glob;
    var r := SkipWild(filter, q);
    var m := |filter| - r;
    t := Repeat(filter[r], m) + [filter[r]];
    LiteralsMatch(filter, q + 1);
    LiteralsSkip(filter, q);
    LiteralsSkip(filter, r + 1);
    assert Literals(filter, q + 1) == [filter[r]];
    assert t[m..] == [filter[r]];
    StarTakes(t, filter, q, m);
    StarThenLiteral(pre, t, filter, q);
    if Accepts(pre + t, |pre|, filter, q) {
      QuestionsLength(pre + t, |pre| + 1, filter, r + 1);
    }
  }

  lemma {:induction false} RefuseWild(pre: seq<byte>, filter: seq<byte>, q: nat) returns (t: seq<byte>)
    requires q < |filter| && IsWild(filter[q]) && SkipWild(filter, q) < |filter| && NulFree(filter)
    requires !Floating(filter, q)
    ensures Glob(t, filter[q..]) && Plain(t) && !Accepts(pre + t, |pre|, filter, q)
    decreases |filter| - q
  {
    hide Accepts;
    var r := SkipWild(filter, q);
    if filter[q] == QUESTION {
      t := RefuseQuestion(pre, filter, q);
    } else if r + 1 == |filter| || !IsWild(filter[r + 1]) {
      t := RefusePair(pre, filter, q);
    } else if SkipWild(filter, r + 1) == |filter| {
      t := RefuseQuestions(pre, filter, q);
    } else {
      var u := RefuseWild(pre + [filter[r]], filter, r + 1);
      t := [filter[r]] + u;
      assert pre + t == pre + [filter[r]] + u;
      PlainJoin([filter[r]], u);
      StarThenLiteral(pre, t, filter, q);
      assert t[1..] == u && filter[r..][1..] == filter[r + 1..];
      assert Glob(t, filter[r..]);
      WildSkipped(t, filter, q, r);
    }
  }

  /** A name of the language that a filter of another form refuses, behind any name that its literals have taken. */
  lemma {:induction false} Refuse(pre: seq<byte>, filter: seq<byte>, q: nat) returns (t: seq<byte>)
    requires q <= |filter| && NulFree(filter) && !Exact(filter, q)
    ensures Glob(t, filter[q..]) && Plain(t) && !Accepts(pre + t, |pre|, filter, q)
    decreases |filter| - q
  {
    if IsWild(filter[q]) {
      t := RefuseWild(pre, filter, q);
    } else {
      var u := Refuse(pre + [filter[q]], filter, q + 1);
      t := [filter[q]] + u;
      assert pre + t == pre + [filter[q]] + u;
      PlainJoin([filter[q]], u);
      assert t[1..] == u && filter[q..][1..] == filter[q + 1..];
    }
  }

  /** The filter accepts exactly its language, for all names without a star, if and only if it has that form. */
  lemma FilterExactly(filter: seq<byte>)
    requires NulFree(filter)
    ensures Complete(filter) <==> Exact(filter, 0)
  {
    hide Glob, Accepts, Exact;
    assert filter[0..] == filter;
    if Exact(filter, 0) {
      forall name: seq<byte> | NulFree(name) && STAR !in name
        ensures Accepts(name, 0, filter, 0) <==> Glob(name, filter)
      {
        AcceptsComplete(name, 0, filter, 0);
        assert name[0..] == name;
      }
    } else {
      var t := Refuse([], filter, 0);
      assert [] + t == t;
    }
  }

  /** A star in a name is taken for the star of the filter alone: "*" refuses "*A". */
  lemma StarInName()
    ensures !Accepts([STAR, 65], 0, [STAR], 0) && Glob([STAR, 65], [STAR])
  {
    var name: seq<byte>, filter: seq<byte>, none: seq<byte> := [STAR, 65], [STAR], [];
    assert name[2..] == none && filter[1..] == none;
    assert Glob(none, none);
    assert filter[0..] == filter;
    StarTakes(name, filter, 0, 2);
  }
}
