/** Directory enumeration of the memory stick: the name filter, and the entries it leaves. */
module MsfsDir {
  import opened Bytes

  const STAR: byte := 42
  const QUESTION: byte := 63

  predicate IsWild(c: byte) {
    c == STAR || c == QUESTION
  }

  /** The filter language: '*' is any string, '?' at most one character. */
  ghost predicate Glob(name: seq<byte>, filter: seq<byte>)
    decreases |filter|
  {
    if filter == [] then name == []
    else if filter[0] == STAR then exists k :: 0 <= k <= |name| && Glob(name[k..], filter[1..])
    else if filter[0] == QUESTION then Glob(name, filter[1..]) || (name != [] && Glob(name[1..], filter[1..]))
    else name != [] && name[0] == filter[0] && Glob(name[1..], filter[1..])
  }

  /** The first index from `i` on that holds no wildcard. */
  function SkipWild(filter: seq<byte>, i: nat): (j: nat)
    requires i <= |filter|
    ensures i <= j <= |filter| && (j < |filter| ==> !IsWild(filter[j])) && forall k :: i <= k < j ==> IsWild(filter[k])
    decreases |filter| - i
  {
    if i < |filter| && IsWild(filter[i]) then SkipWild(filter, i + 1) else i
  }

  /** A C string's byte at `i`: zero at its end. */
  function CharAt(s: seq<byte>, i: nat): byte
    requires i <= |s|
  {
    if i < |s| then s[i] else 0
  }

  /** The first index from `i` on that holds `c`, or the end. */
  function Seek(name: seq<byte>, i: nat, c: byte): (j: nat)
    requires i <= |name|
    ensures i <= j <= |name| && (j < |name| ==> name[j] == c) && forall k :: i <= k < j ==> name[k] != c
    decreases |name| - i
  {
    if i < |name| && name[i] != c then Seek(name, i + 1, c) else i
  }

  /**
    What the filter loop decides from positions `p` and `q` on: a star takes the shortest string up to
    the next literal of the filter, and nothing is ever taken back.
  */
  predicate Accepts(name: seq<byte>, p: nat, filter: seq<byte>, q: nat)
    requires p <= |name| && q <= |filter|
    decreases |filter| - q
  {
    if p == |name| || q == |filter| then p == |name| && SkipWild(filter, q) == |filter|
    else if name[p] == filter[q] || filter[q] == QUESTION then Accepts(name, p + 1, filter, q + 1)
    else if filter[q] == STAR then
      var q' := SkipWild(filter, q + 1);
      q' == |filter| || (Seek(name, p, filter[q']) < |name|
          && Accepts(name, Seek(name, p, filter[q']) + 1, filter, q' + 1))
    else false
  }

  lemma {:induction false} SkippedWild(filter: seq<byte>, q: nat, j: nat)
    requires q <= |filter| && q <= j <= SkipWild(filter, q)
    ensures SkipWild(filter, j) == SkipWild(filter, q)
    decreases j - q
  {
    if q < j {
      SkippedWild(filter, q + 1, j);
    }
  }

  /** ScePspemuMsfsDirectoryFilter. */
  method DirectoryFilter(name: seq<byte>, filter: seq<byte>) returns (b: bool)
    requires NulFree(name) && NulFree(filter)
    ensures b <==> Accepts(name, 0, filter, 0)
  {
    var p: nat, q: nat := 0, 0;
    while p < |name| && q < |filter|
      invariant p <= |name| && q <= |filter| && Accepts(name, p, filter, q) == Accepts(name, 0, filter, 0)
      decreases |filter| - q, |name| - p
    {
      if name[p] == filter[q] || filter[q] == QUESTION {
        p, q := p + 1, q + 1;
        continue;
      }
      if filter[q] == STAR {
        q := SkipWildcards(filter, q + 1);
        p := SkipTo(name, p, CharAt(filter, q));
      }
      if CharAt(name, p) != CharAt(filter, q) {
        assert !Accepts(name, 0, filter, 0);
        assert p < |name| || (q < |filter| && !IsWild(filter[q]));
        break;
      }
    }
    q := SkipWildcards(filter, q);
    b := p == |name| && q == |filter|;
  }

  method SkipWildcards(filter: seq<byte>, start: nat) returns (q: nat)
    requires start <= |filter|
    ensures q == SkipWild(filter, start)
  {
    q := start;
    while q < |filter| && IsWild(filter[q])
      invariant start <= q <= SkipWild(filter, start)
    {
      q := q + 1;
    }
    SkippedWild(filter, start, q);
  }

  method SkipTo(name: seq<byte>, start: nat, c: byte) returns (p: nat)
    requires start <= |name|
    ensures p == Seek(name, start, c)
  {
    p := start;
    while p < |name| && name[p] != c
      invariant start <= p <= Seek(name, start, c)
    {
      p := p + 1;
    }
    SeekShifts(name, start, p, c);
  }

  lemma {:induction false} SeekShifts(name: seq<byte>, i: nat, j: nat, c: byte)
    requires i <= |name| && i <= j <= Seek(name, i, c)
    ensures Seek(name, j, c) == Seek(name, i, c)
    decreases j - i
  {
    if i < j {
      SeekShifts(name, i + 1, j, c);
    }
  }

  // ----- the filter against its language

  lemma {:induction false} WildMatchesEmpty(filter: seq<byte>, q: nat)
    requires q <= |filter| && SkipWild(filter, q) == |filter|
    ensures Glob([], filter[q..])
    decreases |filter| - q
  {
    if q < |filter| {
      WildMatchesEmpty(filter, q + 1);
      assert filter[q..][1..] == filter[q + 1..];
      var none: seq<byte> := [];
      assert none[0..] == none;
    }
  }

  /** Wildcards may match nothing. */
  lemma {:induction false} WildSkipped(name: seq<byte>, filter: seq<byte>, q: nat, j: nat)
    requires q <= |filter| && q <= j <= SkipWild(filter, q) && Glob(name, filter[j..])
    ensures Glob(name, filter[q..])
    decreases j - q
  {
    if q < j {
      WildSkipped(name, filter, q + 1, j);
      assert filter[q..][1..] == filter[q + 1..];
      assert name[0..] == name;
    }
  }

  lemma StarTakes(name: seq<byte>, filter: seq<byte>, q: nat, k: nat)
    requires q < |filter| && filter[q] == STAR && k <= |name| && Glob(name[k..], filter[q + 1..])
    ensures Glob(name, filter[q..])
  {
    assert filter[q..][1..] == filter[q + 1..];
  }

  lemma GlobNext(name: seq<byte>, p: nat, filter: seq<byte>, q: nat)
    requires p < |name| && q < |filter| && (name[p] == filter[q] || filter[q] == QUESTION)
    requires Glob(name[p + 1..], filter[q + 1..])
    ensures Glob(name[p..], filter[q..])
  {
    assert name[p..][1..] == name[p + 1..] && filter[q..][1..] == filter[q + 1..];
    if filter[q] == STAR {
      StarTakes(name[p..], filter, q, 1);
    }
  }

  lemma GlobStar(name: seq<byte>, p: nat, k: nat, filter: seq<byte>, q: nat)
    requires p <= k <= |name| && q < |filter| && filter[q] == STAR && Glob(name[k..], filter[q + 1..])
    ensures Glob(name[p..], filter[q..])
  {
    assert name[p..][k - p..] == name[k..];
    StarTakes(name[p..], filter, q, k - p);
  }

  lemma EmptyGlob(name: seq<byte>, filter: seq<byte>, q: nat)
    requires q <= |filter| && SkipWild(filter, q) == |filter|
    ensures Glob(name[|name|..], filter[q..])
  {
    WildMatchesEmpty(filter, q);
    assert name[|name|..] == [];
  }

  /** The filter accepts only names in the language of the pattern. */
  lemma {:induction false} AcceptsSound(name: seq<byte>, p: nat, filter: seq<byte>, q: nat)
    requires p <= |name| && q <= |filter| && Accepts(name, p, filter, q)
    ensures Glob(name[p..], filter[q..])
    decreases |filter| - q
  {
    hide Glob;
    if p == |name| || q == |filter| {
      EmptyGlob(name, filter, q);
    } else if name[p] == filter[q] || filter[q] == QUESTION {
      AcceptsSound(name, p + 1, filter, q + 1);
      GlobNext(name, p, filter, q);
    } else {
      var q' := SkipWild(filter, q + 1);
      if q' == |filter| {
        EmptyGlob(name, filter, q + 1);
        GlobStar(name, p, |name|, filter, q);
      } else {
        var k := Seek(name, p, filter[q']);
        AcceptsSound(name, k + 1, filter, q' + 1);
        GlobNext(name, k, filter, q');
        WildSkipped(name[k..], filter, q + 1, q');
        GlobStar(name, p, k, filter, q);
      }
    }
  }

  /**
    Wildcards from `q` on that stand before literals: every run of them before a literal starts with a
    star, every literal stands alone between two runs, and the last run holds a star.
  */
  predicate Floating(filter: seq<byte>, q: nat)
    requires q <= |filter|
    decreases |filter| - q
  {
    var r := SkipWild(filter, q);
    if r == |filter| then STAR in filter[q..]
    else filter[q] == STAR && r + 1 < |filter| && IsWild(filter[r + 1]) && Floating(filter, r + 1)
  }

  /** Literals, then wildcards with no literal behind them, as in "EBOOT.*", or wildcards that float, as in "*A*". */
  predicate Exact(filter: seq<byte>, q: nat)
    requires q <= |filter|
    decreases |filter| - q
  {
    SkipWild(filter, q) == |filter| || (if IsWild(filter[q]) then Floating(filter, q) else Exact(filter, q + 1))
  }

  /** For such a filter, and names without a literal star, the filter accepts exactly its language. */
  lemma {:induction false} AcceptsComplete(name: seq<byte>, p: nat, filter: seq<byte>, q: nat)
    requires p <= |name| && q <= |filter| && Exact(filter, q) && STAR !in name
    ensures Accepts(name, p, filter, q) <==> Glob(name[p..], filter[q..])
    decreases |filter| - q
  {
    if Accepts(name, p, filter, q) {
      AcceptsSound(name, p, filter, q);
    } else if SkipWild(filter, q) < |filter| && IsWild(filter[q]) {
      if Glob(name[p..], filter[q..]) {
        FloatAccepts(name, p, filter, q);
        assert false;
      }
    } else {
      if p < |name| && q < |filter| {
        assert name[p] in name;
        assert name[p..][1..] == name[p + 1..] && filter[q..][1..] == filter[q + 1..];
        if filter[q] == QUESTION {
          AcceptsComplete(name, p + 1, filter, q + 1);
          if Glob(name[p..], filter[q + 1..]) {
            WildShrinks(name[p..], filter, q + 1);
          }
        } else if filter[q] != STAR && name[p] == filter[q] {
          AcceptsComplete(name, p + 1, filter, q + 1);
        }
      } else if p == |name| && q < |filter| {
        EmptyNeedsWild(filter, q);
      }
    }
  }

  // Wildcards that float: whatever matches is accepted, because the first occurrence of a literal is as good as any.

  lemma {:induction false} StarRunAccepts(name: seq<byte>, p: nat, filter: seq<byte>, q: nat)
    requires p <= |name| && q <= |filter| && SkipWild(filter, q) == |filter| && STAR in filter[q..] && STAR !in name
    ensures Accepts(name, p, filter, q)
    decreases |filter| - q
  {
    if p < |name| {
      assert name[p] in name;
      if filter[q] == QUESTION {
        assert filter[q..] == [filter[q]] + filter[q + 1..];
        StarRunAccepts(name, p + 1, filter, q + 1);
      }
    }
  }

  lemma {:induction false} StarRunMatches(name: seq<byte>, filter: seq<byte>, q: nat)
    requires q <= |filter| && SkipWild(filter, q) == |filter| && STAR in filter[q..]
    ensures Glob(name, filter[q..])
    decreases |filter| - q
  {
    assert filter[q..] == [filter[q]] + filter[q + 1..];
    if filter[q] == STAR {
      WildMatchesEmpty(filter, q + 1);
      assert name[|name|..] == [];
      StarTakes(name, filter, q, |name|);
    } else {
      StarRunMatches(name, filter, q + 1);
    }
  }

  /** How much of a name the first character of the filter has taken. */
  lemma Taken(name: seq<byte>, filter: seq<byte>, q: nat) returns (k: nat)
    requires q < |filter| && Glob(name, filter[q..])
    ensures k <= |name| && Glob(name[k..], filter[q + 1..])
    ensures !IsWild(filter[q]) ==> k == 1 && name[0] == filter[q]
  {
    assert filter[q..][1..] == filter[q + 1..];
    assert name[0..] == name;
    if filter[q] == STAR {
      k :| 0 <= k <= |name| && Glob(name[k..], filter[q..][1..]);
    } else {
      k := if filter[q] == QUESTION && Glob(name, filter[q + 1..]) then 0 else 1;
    }
  }

  /** What matches wildcards and a literal has the literal somewhere, and what follows it matches the rest. */
  lemma {:induction false} LiteralSomewhere(name: seq<byte>, filter: seq<byte>, q: nat) returns (j: nat)
    requires q <= |filter| && SkipWild(filter, q) < |filter| && Glob(name, filter[q..])
    ensures var r := SkipWild(filter, q); j < |name| && name[j] == filter[r] && Glob(name[j + 1..], filter[r + 1..])
    decreases |filter| - q
  {
    hide Glob;
    var k := Taken(name, filter, q);
    if IsWild(filter[q]) {
      j := LiteralSomewhere(name[k..], filter, q + 1);
      assert name[k..][j + 1..] == name[k + j + 1..];
      j := k + j;
    } else {
      j := 0;
    }
  }

  /** What floating wildcards match they match with anything in front. */
  lemma FloatExtends(name: seq<byte>, i: nat, filter: seq<byte>, q: nat)
    requires i <= |name| && q < |filter| && IsWild(filter[q]) && Floating(filter, q) && Glob(name[i..], filter[q..])
    ensures Glob(name, filter[q..])
  {
    hide Glob;
    if SkipWild(filter, q) == |filter| {
      StarRunMatches(name, filter, q);
    } else {
      var k := Taken(name[i..], filter, q);
      assert name[i..][k..] == name[i + k..];
      StarTakes(name, filter, q, i + k);
    }
  }

  lemma {:induction false} FloatAccepts(name: seq<byte>, p: nat, filter: seq<byte>, q: nat)
    requires p <= |name| && q < |filter| && IsWild(filter[q]) && Floating(filter, q) && STAR !in name
    requires Glob(name[p..], filter[q..])
    ensures Accepts(name, p, filter, q)
    decreases |filter| - q
  {
    hide Glob, Accepts;
    var r := SkipWild(filter, q);
    if r == |filter| {
      StarRunAccepts(name, p, filter, q);
    } else {
      var j := LiteralSomewhere(name[p..], filter, q);
      var k := Seek(name, p, filter[r]);
      assert name[p + j] == filter[r];
      assert name[p..][j + 1..] == name[k + 1..][p + j - k..];
      FloatExtends(name[k + 1..], p + j - k, filter, r + 1);
      FloatAccepts(name, k + 1, filter, r + 1);
      assert name[p] in name;
      AcceptsStar(name, p, filter, q, k);
    }
  }

  lemma AcceptsStar(name: seq<byte>, p: nat, filter: seq<byte>, q: nat, k: nat)
    requires p < |name| && name[p] != STAR && q < |filter| && filter[q] == STAR && SkipWild(filter, q) < |filter|
    requires k == Seek(name, p, filter[SkipWild(filter, q)]) < |name|
    ensures Accepts(name, p, filter, q) <==> Accepts(name, k + 1, filter, SkipWild(filter, q) + 1)
  {
    SkippedWild(filter, q, q + 1);
  }

  /** A run of wildcards that matches a name matches it without its first character. */
  lemma {:induction false} WildShrinks(name: seq<byte>, filter: seq<byte>, q: nat)
    requires q <= |filter| && SkipWild(filter, q) == |filter| && name != [] && Glob(name, filter[q..])
    ensures Glob(name[1..], filter[q..])
    decreases |filter| - q
  {
    if q < |filter| {
      assert filter[q..][1..] == filter[q + 1..];
      if filter[q] == STAR {
        var k :| 0 <= k <= |name| && Glob(name[k..], filter[q + 1..]);
        if k == 0 {
          assert name[0..] == name;
          WildShrinks(name, filter, q + 1);
          assert name[1..][0..] == name[1..];
        } else {
          assert name[1..][k - 1..] == name[k..];
        }
        StarTakes(name[1..], filter, q, if k == 0 then 0 else k - 1);
      } else if Glob(name, filter[q + 1..]) {
        WildShrinks(name, filter, q + 1);
      }
    }
  }

  lemma {:induction false} EmptyNeedsWild(filter: seq<byte>, q: nat)
    requires q <= |filter| && SkipWild(filter, q) < |filter|
    ensures !Glob([], filter[q..])
    decreases |filter| - q
  {
    assert filter[q..][1..] == filter[q + 1..];
    if IsWild(filter[q]) {
      EmptyNeedsWild(filter, q + 1);
      var none: seq<byte> := [];
      assert none[0..] == none;
    }
  }

  /** In general it accepts less: "*ab" should match "aab". */
  lemma FilterIncomplete()
    ensures !Accepts([97, 97, 98], 0, [STAR, 97, 98], 0) && Glob([97, 97, 98], [STAR, 97, 98])
  {
    var name: seq<byte>, filter: seq<byte> := [97, 97, 98], [STAR, 97, 98];
    assert SkipWild(filter, 1) == 1 && Seek(name, 0, 97) == 0;
    assert !Accepts(name, 1, filter, 2);
    assert name[1..] == [97, 98] && filter[1..] == [97, 98];
    var ab: seq<byte>, b: seq<byte>, none: seq<byte> := [97, 98], [98], [];
    assert ab[1..] == b && b[1..] == none;
    assert Glob(none, none);
    assert Glob(b, b);
    assert Glob(name[1..], filter[1..]);
  }

  // ----- enumeration

  /** The names that pass the filter; an empty filter lets all pass. */
  function Filtered(names: seq<seq<byte>>, filter: seq<byte>): seq<seq<byte>> {
    if names == [] then []
    else (if Passes(names[0], filter) then [names[0]] else []) + Filtered(names[1..], filter)
  }

  /** Names that pass are names of the language; without a filter all names pass. */
  lemma {:induction false} FilteredMatch(names: seq<seq<byte>>, filter: seq<byte>)
    ensures filter == [] ==> Filtered(names, filter) == names
    ensures forall n :: n in Filtered(names, filter) ==> n in names && (filter != [] ==> Glob(n, filter))
  {
    hide Glob, Accepts;
    if names != [] {
      FilteredMatch(names[1..], filter);
      if filter != [] && Passes(names[0], filter) {
        AcceptsSound(names[0], 0, filter, 0);
        assert names[0][0..] == names[0] && filter[0..] == filter;
      }
    }
  }

  /** For a filter of the exact form no name of the language without a star is left out, and no order is changed. */
  lemma {:induction false} FilteredAll(names: seq<seq<byte>>, filter: seq<byte>)
    requires Exact(filter, 0)
    ensures forall n :: n in names && Glob(n, filter) && STAR !in n ==> n in Filtered(names, filter)
  {
    hide Glob, Accepts, Exact;
    if names != [] {
      FilteredAll(names[1..], filter);
      if Glob(names[0], filter) && STAR !in names[0] && filter != [] {
        AcceptsComplete(names[0], 0, filter, 0);
        assert names[0][0..] == names[0] && filter[0..] == filter;
      }
    }
  }

  /** Names pass one by one, so their order stays. */
  lemma {:induction false} FilteredJoin(a: seq<seq<byte>>, b: seq<seq<byte>>, filter: seq<byte>)
    ensures Filtered(a + b, filter) == Filtered(a, filter) + Filtered(b, filter)
  {
    hide Passes;
    if a == [] {
      assert a + b == b;
    } else {
      FilteredJoin(a[1..], b, filter);
      assert (a + b)[1..] == a[1..] + b;
    }
  }

  predicate Passes(name: seq<byte>, filter: seq<byte>) {
    filter == [] || Accepts(name, 0, filter, 0)
  }

  /** A directory descriptor over an error-free host directory. */
  class Directory {
    const entries: seq<seq<byte>>
    var next: nat
    var extra: int
    var filter: seq<byte>

    /** Dopen: outside the root the two special entries come first. */
    constructor (entries: seq<seq<byte>>, path: seq<byte>)
      requires forall i :: 0 <= i < |entries| ==> NulFree(entries[i])
      ensures Valid() && this.entries == entries && filter == []
      ensures Remaining() == (if path == [] || path == [47] then [] else [DOT, DOT_DOT]) + entries
    {
      this.entries := entries;
      next := 0;
      extra := if path == [] || path == [47] then -1 else 0;
      filter := [];
      new;
      assert entries[0..] == entries;
    }

    predicate Valid()
      reads this
    {
      && next <= |entries| && -1 <= extra <= 1 && NulFree(filter)
      && (extra >= 0 ==> next == 0)
      && forall i :: 0 <= i < |entries| ==> NulFree(entries[i])
    }

    /** What is still to be read, before filtering. */
    function Remaining(): seq<seq<byte>>
      requires Valid()
      reads this
    {
      (if extra == 0 then [DOT, DOT_DOT] else if extra == 1 then [DOT_DOT] else []) + entries[next..]
    }

    /** The filter command of Ioctl. */
    method SetFilter(name: seq<byte>)
      requires Valid() && NulFree(name)
      modifies this`filter
      ensures Valid() && filter == name
    {
      filter := name;
    }

    /** One entry, unfiltered: ExtraDread or the host's own. */
    method ReadOne() returns (res: int, name: seq<byte>)
      requires Valid()
      modifies this`next, this`extra
      ensures Valid() && NulFree(name)
      ensures old(Remaining()) == [] ==> res == 0 && Remaining() == []
      ensures old(Remaining()) != [] ==> res == 1 && name == old(Remaining())[0] && Remaining() == old(Remaining())[1..]
    {
      name := [];
      if extra >= 0 {
        if extra == 0 {
          name := DOT;
          extra := 1;
        } else {
          name := DOT_DOT;
          extra := -1;
        }
        res := 1;
      } else if next < |entries| {
        name := entries[next];
        next := next + 1;
        res := 1;
      } else {
        res := 0;
      }
    }

    /** Dread: the next entry that passes the filter, or 0 when there is none. */
    method Dread() returns (res: int, name: seq<byte>)
      requires Valid()
      modifies this`next, this`extra
      ensures Valid()
      ensures res == 0 ==> Filtered(old(Remaining()), filter) == [] && Remaining() == []
      ensures res != 0 ==> res == 1 && Filtered(old(Remaining()), filter) == [name] + Filtered(Remaining(), filter)
      ensures |Remaining()| <= |old(Remaining())| && (res != 0 ==> |Remaining()| < |old(Remaining())|)
    {
      hide Accepts;
      ghost var all := Filtered(Remaining(), filter);
      while true
        invariant Valid() && Filtered(Remaining(), filter) == all && |Remaining()| <= |old(Remaining())|
        decreases |Remaining()|
      {
        res, name := ReadOne();
        if res == 0 || filter == [] {
          return;
        }
        var accepted := DirectoryFilter(name, filter);
        if accepted {
          return;
        }
      }
    }

    /** Repeated Dread until it returns 0 yields exactly the filtered entries, in order. */
    method ReadAll() returns (names: seq<seq<byte>>)
      requires Valid()
      modifies this`next, this`extra
      ensures Valid() && names == Filtered(old(Remaining()), filter)
      ensures filter == [] ==> names == old(Remaining())
      ensures filter != [] ==> forall n :: n in names ==> Glob(n, filter)
      ensures Exact(filter, 0) ==>
                forall n :: n in old(Remaining()) && Glob(n, filter) && STAR !in n ==> n in names
    {
      ghost var remaining := Remaining();
      hide Accepts, Filtered, Exact, Glob;
      names := [];
      while true
        invariant Valid() && names + Filtered(Remaining(), filter) == Filtered(remaining, filter)
        decreases |Remaining()|
      {
        var res, name := Dread();
        if res == 0 {
          FilteredMatch(remaining, filter);
          if Exact(filter, 0) {
            FilteredAll(remaining, filter);
          }
          return;
        }
        names := names + [name];
      }
    }
  }
}
