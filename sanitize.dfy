/** The file-name sanitiser: what may appear in a renamed photo's name. */
module Sanitize {
  import opened Common

  /** The characters of the class `[\\/:"*?<>|]`. */
  predicate IsForbidden(c: char)
  {
    c == '\\' || c == '/' || c == ':' || c == '"' || c == '*' || c == '?' || c == '<' || c == '>' || c == '|'
  }

  predicate NoForbidden(s: string)
  {
    forall i :: 0 <= i < |s| ==> !IsForbidden(s[i])
  }

  /** `s.replace(x, '')` */
  function DeleteChar(s: string, x: char): (r: string)
    ensures forall i :: 0 <= i < |r| ==> r[i] != x
  {
    if s == [] then []
    else (if s[0] == x then [] else [s[0]]) + DeleteChar(s[1..], x)
  }

  lemma {:induction false} DeleteCharAppend(a: string, b: string, x: char)
    ensures DeleteChar(a + b, x) == DeleteChar(a, x) + DeleteChar(b, x)
  {
    if a != [] {
      assert (a + b)[1..] == a[1..] + b && (a + b)[0] == a[0];
      DeleteCharAppend(a[1..], b, x);
    } else {
      assert a + b == b;
    }
  }

  lemma {:induction false} DeleteCharAbsent(s: string, x: char)
    requires forall i :: 0 <= i < |s| ==> s[i] != x
    ensures DeleteChar(s, x) == s
  {
    if s != [] {
      DeleteCharAbsent(s[1..], x);
    }
  }

  /** `re.sub(r'[\\/:"*?<>|]', '', s)` */
  function DeleteForbidden(s: string): (r: string)
    ensures NoForbidden(r)
    ensures NoForbidden(s) ==> r == s
  {
    if s == [] then []
    else (if IsForbidden(s[0]) then [] else [s[0]]) + DeleteForbidden(s[1..])
  }

  /** The first character is dropped exactly when it is forbidden. */
  lemma DeleteForbiddenCons(c: char, t: string)
    ensures DeleteForbidden([c] + t) == (if IsForbidden(c) then [] else [c]) + DeleteForbidden(t)
  {
    assert ([c] + t)[0] == c && ([c] + t)[1..] == t;
  }

  /** The forbidden characters are deleted piecewise; with DeleteForbiddenCons
      this says that the others are kept, in their order. */
  lemma {:induction false} DeleteForbiddenAppend(a: string, b: string)
    ensures DeleteForbidden(a + b) == DeleteForbidden(a) + DeleteForbidden(b)
  {
    if a != [] {
      var c, t := a[0], a[1..];
      assert a == [c] + t && a + b == [c] + (t + b);
      DeleteForbiddenCons(c, t);
      DeleteForbiddenCons(c, t + b);
      DeleteForbiddenAppend(t, b);
    } else {
      assert a + b == b;
    }
  }

  /** The result holds exactly the input's characters that are not forbidden. */
  lemma {:induction false} DeleteForbiddenMembers(s: string, c: char)
    ensures c in DeleteForbidden(s) <==> c in s && !IsForbidden(c)
  {
    if s != [] {
      DeleteForbiddenMembers(s[1..], c);
      assert s == [s[0]] + s[1..];
    }
  }

  /** `re.sub(r'\s+', rep, s)`: every maximal run of whitespace becomes one `rep`. */
  function ReplaceSpaceRuns(s: string, rep: string): (r: string)
    ensures NoSpace(rep) ==> NoSpace(r)
    ensures NoForbidden(s) && NoForbidden(rep) ==> NoForbidden(r)
    ensures NoSpace(s) ==> r == s
  {
    RunsFacts(s, rep, false);
    Runs(s, rep, false)
  }

  /** The scan behind ReplaceSpaceRuns; `inRun` says the previous character was whitespace. */
  function Runs(s: string, rep: string, inRun: bool): string
  {
    if s == [] then []
    else if IsSpace(s[0]) then (if inRun then [] else rep) + Runs(s[1..], rep, true)
    else [s[0]] + Runs(s[1..], rep, false)
  }

  lemma {:induction false} RunsFacts(s: string, rep: string, inRun: bool)
    ensures NoSpace(rep) ==> NoSpace(Runs(s, rep, inRun))
    ensures NoForbidden(s) && NoForbidden(rep) ==> NoForbidden(Runs(s, rep, inRun))
    ensures NoSpace(s) ==> Runs(s, rep, inRun) == s
  {
    if s != [] {
      RunsFacts(s[1..], rep, IsSpace(s[0]));
      if NoSpace(s) {
        assert !IsSpace(s[0]);
      }
    }
  }

  /** `sanitize_filename(name)`; `None` stands for an argument that is not a `str`. */
  function SanitizeFilename(name: Option<string>): (r: string)
    ensures name.None? ==> r == ""
    ensures NoSpace(r) && NoForbidden(r)
  {
    match name
    case None => ""
    case Some(s) => ReplaceSpaceRuns(DeleteForbidden(DeleteChar(Strip(s), '*')), "_")
  }

  /** Sanitising a sanitised name changes nothing. */
  lemma SanitizeFilenameIdempotent(name: Option<string>)
    ensures SanitizeFilename(Some(SanitizeFilename(name))) == SanitizeFilename(name)
  {
    var t := SanitizeFilename(name);
    DeleteCharAbsent(t, '*');
  }

  predicate AllSpace(w: string)
  {
    forall i :: 0 <= i < |w| ==> IsSpace(w[i])
  }

  /** A whitespace run between two non-space neighbours becomes exactly one `rep`. */
  lemma SpaceRunReplacedOnce(a: string, w: string, b: string, rep: string)
    requires a == [] || !IsSpace(a[|a| - 1])
    requires w != [] && AllSpace(w)
    requires b == [] || !IsSpace(b[0])
    ensures ReplaceSpaceRuns(a + w + b, rep) == ReplaceSpaceRuns(a, rep) + rep + ReplaceSpaceRuns(b, rep)
  {
    RunReplacedOnce(a, w, b, rep);
  }

  lemma RunReplacedOnce(a: string, w: string, b: string, rep: string)
    requires a == [] || !IsSpace(a[|a| - 1])
    requires w != [] && AllSpace(w)
    requires b == [] || !IsSpace(b[0])
    ensures Runs(a + w + b, rep, false) == Runs(a, rep, false) + rep + Runs(b, rep, false)
  {
    if a == [] {
      SpaceRunAtStart(w, b, rep);
      assert a + w + b == w + b;
    } else {
      RunReplacedAfter(a, w, b, rep);
    }
  }

  lemma RunReplacedAfter(a: string, w: string, b: string, rep: string)
    requires a != [] && !IsSpace(a[|a| - 1])
    requires w != [] && AllSpace(w)
    requires b == [] || !IsSpace(b[0])
    ensures Runs(a + w + b, rep, false) == Runs(a, rep, false) + rep + Runs(b, rep, false)
  {
    var wb := w + b;
    var ra, rb := Runs(a, rep, false), Runs(b, rep, false);
    SpaceRunAtStart(w, b, rep);
    RunsAppend(a, wb, rep, false);
    assert a + w + b == a + wb;
    assert Runs(a + wb, rep, false) == ra + (rep + rb);
    assert ra + (rep + rb) == ra + rep + rb;
  }

  lemma SpaceRunAtStart(w: string, b: string, rep: string)
    requires w != [] && AllSpace(w)
    requires b == [] || !IsSpace(b[0])
    ensures Runs(w + b, rep, false) == rep + Runs(b, rep, false)
  {
    assert (w + b)[0] == w[0] && (w + b)[1..] == w[1..] + b;
    RunsInsideRun(w[1..], b, rep);
  }

  lemma {:induction false} RunsInsideRun(w: string, b: string, rep: string)
    requires AllSpace(w)
    requires b == [] || !IsSpace(b[0])
    ensures Runs(w + b, rep, true) == Runs(b, rep, false)
  {
    if w == [] {
      assert w + b == b;
    } else {
      assert (w + b)[0] == w[0] && (w + b)[1..] == w[1..] + b;
      RunsInsideRun(w[1..], b, rep);
    }
  }

  lemma {:induction false} RunsAppend(a: string, y: string, rep: string, inRun: bool)
    requires a != [] && !IsSpace(a[|a| - 1])
    ensures Runs(a + y, rep, inRun) == Runs(a, rep, inRun) + Runs(y, rep, false)
  {
    assert (a + y)[0] == a[0] && (a + y)[1..] == a[1..] + y;
    if |a| == 1 {
      assert a[1..] == [];
    } else {
      RunsAppend(a[1..], y, rep, IsSpace(a[0]));
    }
  }

  /** A tail without whitespace is copied as it is, whatever precedes it. */
  lemma {:induction false} RunsAppendNoSpace(g: string, h: string, rep: string, inRun: bool)
    requires NoSpace(h)
    ensures Runs(g + h, rep, inRun) == Runs(g, rep, inRun) + h
  {
    if g == [] {
      assert g + h == h;
      RunsFacts(h, rep, inRun);
    } else {
      assert (g + h)[0] == g[0] && (g + h)[1..] == g[1..] + h;
      RunsAppendNoSpace(g[1..], h, rep, IsSpace(g[0]));
    }
  }

  /** Text that is not all gone starts a non-empty output: its first
      character or, for a leading run, the replacement. */
  lemma RunsNonEmpty(s: string, rep: string)
    requires s != [] && rep != []
    ensures Runs(s, rep, false) != []
  {
  }

  /** Every output character comes from the input or from the replacement. */
  lemma {:induction false} RunsChars(s: string, rep: string, inRun: bool)
    ensures forall c :: c in Runs(s, rep, inRun) ==> c in s || c in rep
  {
    if s != [] {
      RunsChars(s[1..], rep, IsSpace(s[0]));
      assert s == [s[0]] + s[1..];
    }
  }
}
