/** Autocomplete over the Korean names of the reference table: exact matches
    first, then names starting with the query, then names containing it,
    each group in table order, cut to a limit (`fuzzy_search_kor_name`). */
module Fuzzy {
  import opened Common

  /** The three comprehensions of the ranker. */
  datatype Group = ExactGroup | PrefixGroup | ContainsGroup

  /** Whether the comprehension for group `g` keeps `n`, for the lowered
      query `q`, given the names the earlier groups already hold. */
  predicate Admits(g: Group, q: string, earlier: seq<string>, n: string)
  {
    match g
    case ExactGroup => q == Lower(n)
    case PrefixGroup => q <= Lower(n) && n !in earlier
    case ContainsGroup => IsInfix(q, Lower(n)) && n !in earlier
  }

  /** `[n for n in names if <condition of g>]` */
  function Select(names: seq<string>, g: Group, q: string, earlier: seq<string>): (r: seq<string>)
    ensures |r| <= |names|
  {
    if names == [] then []
    else (if Admits(g, q, earlier, names[0]) then [names[0]] else []) + Select(names[1..], g, q, earlier)
  }

  lemma {:induction false} SelectMembers(names: seq<string>, g: Group, q: string, earlier: seq<string>)
    ensures forall n :: n in Select(names, g, q, earlier) <==> n in names && Admits(g, q, earlier, n)
  {
    if names != [] {
      SelectMembers(names[1..], g, q, earlier);
      assert names == [names[0]] + names[1..];
    }
  }

  /** The first name is kept exactly when the group admits it. */
  lemma SelectCons(n: string, t: seq<string>, g: Group, q: string, earlier: seq<string>)
    ensures Select([n] + t, g, q, earlier) == (if Admits(g, q, earlier, n) then [n] else []) + Select(t, g, q, earlier)
  {
    assert ([n] + t)[0] == n && ([n] + t)[1..] == t;
  }

  /** A comprehension keeps table order: selecting from two halves of
      the table is selecting from each half and putting the results together. */
  lemma {:induction false} SelectAppend(a: seq<string>, b: seq<string>, g: Group, q: string, earlier: seq<string>)
    ensures Select(a + b, g, q, earlier) == Select(a, g, q, earlier) + Select(b, g, q, earlier)
  {
    if a != [] {
      var n, t := a[0], a[1..];
      assert a == [n] + t && a + b == [n] + (t + b);
      var head := if Admits(g, q, earlier, n) then [n] else [];
      SelectCons(n, t, g, q, earlier);
      SelectCons(n, t + b, g, q, earlier);
      SelectAppend(t, b, g, q, earlier);
      var st, sb := Select(t, g, q, earlier), Select(b, g, q, earlier);
      assert head + (st + sb) == (head + st) + sb;
    } else {
      assert a + b == b;
    }
  }

  /** `s[:limit]`, where a negative limit counts from the end. */
  function SlicePrefix(s: seq<string>, limit: int): (r: seq<string>)
    ensures r <= s
    ensures 0 <= limit ==> |r| == if limit < |s| then limit else |s|
    ensures limit < 0 ==> |r| == if |s| + limit < 0 then 0 else |s| + limit
  {
    if 0 <= limit then (if limit < |s| then s[..limit] else s)
    else if |s| + limit < 0 then []
    else s[..|s| + limit]
  }

  function Exact(q: string, names: seq<string>): seq<string>
  {
    Select(names, ExactGroup, q, [])
  }

  function Prefixed(q: string, names: seq<string>): seq<string>
  {
    Select(names, PrefixGroup, q, Exact(q, names))
  }

  function Containing(q: string, names: seq<string>): seq<string>
  {
    Select(names, ContainsGroup, q, Exact(q, names) + Prefixed(q, names))
  }

  /** The three groups, before truncation, for an already lowered query. */
  function Ranked(q: string, names: seq<string>): seq<string>
  {
    Exact(q, names) + Prefixed(q, names) + Containing(q, names)
  }

  /** `fuzzy_search_kor_name(query, all_names, limit)` */
  function FuzzySearch(query: string, names: seq<string>, limit: int): (r: seq<string>)
    ensures query == "" ==> r == []
    ensures 0 <= limit ==> |r| <= limit
    ensures query != "" ==> r <= Ranked(Lower(query), names)
  {
    if query == "" then [] else SlicePrefix(Ranked(Lower(query), names), limit)
  }

  /** How a name matches the lowered query: 0 exact, 1 prefix, 2 elsewhere. */
  function Rank(q: string, n: string): nat
  {
    if q == Lower(n) then 0 else if q <= Lower(n) then 1 else 2
  }

  /** The membership of each group, in terms of the table alone. */
  lemma GroupMembers(q: string, names: seq<string>)
    ensures forall n :: n in Exact(q, names) <==> n in names && q == Lower(n)
    ensures forall n :: n in Prefixed(q, names) <==> n in names && q != Lower(n) && q <= Lower(n)
    ensures forall n :: n in Containing(q, names) <==> n in names && !(q <= Lower(n)) && IsInfix(q, Lower(n))
  {
    var e, p := Exact(q, names), Prefixed(q, names);
    SelectMembers(names, ExactGroup, q, []);
    SelectMembers(names, PrefixGroup, q, e);
    SelectMembers(names, ContainsGroup, q, e + p);
  }

  /** Every ranked name is a table name that contains the query, and every
      table name containing the query is ranked. */
  lemma RankedMembers(q: string, names: seq<string>)
    ensures forall n :: n in Ranked(q, names) <==> n in names && IsInfix(q, Lower(n))
  {
    GroupMembers(q, names);
  }

  /** The groups come in rank order: exact matches, then prefixes, then the rest. */
  lemma RankedInRankOrder(q: string, names: seq<string>)
    ensures forall i, j :: 0 <= i < j < |Ranked(q, names)| ==>
              Rank(q, Ranked(q, names)[i]) <= Rank(q, Ranked(q, names)[j])
  {
    var e, p, c := Exact(q, names), Prefixed(q, names), Containing(q, names);
    var r := Ranked(q, names);
    GroupMembers(q, names);
    forall k | 0 <= k < |r|
      ensures Rank(q, r[k]) == if k < |e| then 0 else if k < |e| + |p| then 1 else 2
    {
      if k < |e| {
        assert r[k] == e[k];
      } else if k < |e| + |p| {
        assert r[k] == p[k - |e|];
      } else {
        assert r[k] == c[k - |e| - |p|];
      }
    }
  }

  /** Every suggestion is a table name containing the lowered query. */
  lemma FuzzySearchMatches(query: string, names: seq<string>, limit: int)
    ensures forall n :: n in FuzzySearch(query, names, limit) ==>
              n in names && IsInfix(Lower(query), Lower(n))
  {
    if query != "" {
      var ranked := Ranked(Lower(query), names);
      var r := FuzzySearch(query, names, limit);
      RankedMembers(Lower(query), names);
      assert r == ranked[..|r|];
    }
  }

  /** The three groups together hold at most one entry per table row. */
  lemma {:induction false} CountGroups(s: seq<string>, q: string, e: seq<string>, ep: seq<string>)
    requires forall n :: n in s && q == Lower(n) ==> n in e
    requires forall n :: n in s && q <= Lower(n) && n !in e ==> n in ep
    requires forall n :: n in e ==> n in ep
    ensures |Select(s, ExactGroup, q, [])| + |Select(s, PrefixGroup, q, e)|
            + |Select(s, ContainsGroup, q, ep)| <= |s|
  {
    if s != [] {
      var n := s[0];
      assert forall m :: m in s[1..] ==> m in s;
      CountGroups(s[1..], q, e, ep);
      assert Admits(ExactGroup, q, [], n) ==> !Admits(PrefixGroup, q, e, n) && !Admits(ContainsGroup, q, ep, n);
      assert Admits(PrefixGroup, q, e, n) ==> !Admits(ContainsGroup, q, ep, n);
    }
  }

  /** With room for all of them, every table name containing the query is suggested. */
  lemma FuzzySearchComplete(query: string, names: seq<string>, limit: int)
    requires query != "" && |names| <= limit
    ensures forall n :: n in names && IsInfix(Lower(query), Lower(n)) ==> n in FuzzySearch(query, names, limit)
  {
    var q := Lower(query);
    GroupMembers(q, names);
    CountGroups(names, q, Exact(q, names), Exact(q, names) + Prefixed(q, names));
    assert FuzzySearch(query, names, limit) == Ranked(q, names);
  }
}
