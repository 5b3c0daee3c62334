/** From a photo's file name to the Korean bird name it carries: extension,
    camera timestamps and separators are removed and the Hangul kept. */
module Tokenizer {
  import opened Common
  import opened Sanitize

  function LastIndexOf(s: string, c: char): (r: Option<nat>)
    ensures r.Some? ==> r.value < |s| && s[r.value] == c && c !in s[r.value + 1..]
    ensures r.None? ==> c !in s
  {
    if s == [] then None
    else if s[|s| - 1] == c then Some(|s| - 1)
    else
      var r := LastIndexOf(s[..|s| - 1], c);
      assert s == s[..|s| - 1] + [s[|s| - 1]];
      r
  }

  /** `re.sub(r'\.[^.]+$', '', s)`: the last `.` and what follows it go, when something follows it. */
  function StripExtension(s: string): string
  {
    match LastIndexOf(s, '.')
    case Some(i) => if i + 1 < |s| then s[..i] else s
    case None => s
  }

  /** `\d{8}_\d{6}` matches at the start of `s`. */
  predicate CompactStampAhead(s: string)
  {
    |s| >= 15 && AllDigits(s[..8]) && s[8] == '_' && AllDigits(s[9..15])
  }

  /** `re.sub(r'\d{8}_\d{6}_?', '', s)` */
  function RemoveCompactStamps(s: string): string
    decreases |s|
  {
    if s == [] then []
    else if CompactStampAhead(s) then RemoveCompactStamps(if |s| > 15 && s[15] == '_' then s[16..] else s[15..])
    else [s[0]] + RemoveCompactStamps(s[1..])
  }

  /** `[\s_-]`, or `[\s_:-]` when a colon is allowed. */
  predicate StampSeparator(c: char, colon: bool)
  {
    IsSpace(c) || c == '_' || c == '-' || (colon && c == ':')
  }

  /** `\d{4}-\d{2}-\d{2}[\s_-]\d{2}[\s_:-]\d{2}[\s_:-]\d{2}` matches at the start of `s`. */
  predicate DashedStampAhead(s: string)
  {
    && |s| >= 19
    && AllDigits(s[..4]) && s[4] == '-' && AllDigits(s[5..7]) && s[7] == '-' && AllDigits(s[8..10])
    && StampSeparator(s[10], false) && AllDigits(s[11..13])
    && StampSeparator(s[13], true) && AllDigits(s[14..16])
    && StampSeparator(s[16], true) && AllDigits(s[17..19])
  }

  /** `re.sub(<the dashed pattern>, '', s)` */
  function RemoveDashedStamps(s: string): string
    decreases |s|
  {
    if s == [] then []
    else if DashedStampAhead(s) then RemoveDashedStamps(s[19..])
    else [s[0]] + RemoveDashedStamps(s[1..])
  }

  /** `s.replace('_', ' ').replace('-', ' ')` */
  function SeparatorsToSpaces(s: string): (r: string)
    ensures |r| == |s|
  {
    if s == [] then []
    else [if s[0] == '_' || s[0] == '-' then ' ' else s[0]] + SeparatorsToSpaces(s[1..])
  }

  /** The base name after name_check.py:18-22: extension, both timestamp
      shapes and separators gone, whitespace collapsed and trimmed. */
  function CleanBaseName(filename: string): string
  {
    Tidy(RemoveDashedStamps(RemoveCompactStamps(StripExtension(filename))))
  }

  /** Separators to spaces, whitespace runs to one space, ends trimmed. */
  function Tidy(s: string): string
  {
    Strip(ReplaceSpaceRuns(SeparatorsToSpaces(s), " "))
  }

  /** A Hangul syllable, U+AC00 to U+D7A3. */
  predicate IsHangul(c: char)
  {
    '\U{AC00}' <= c <= '\U{D7A3}'
  }

  predicate AllHangul(s: string)
  {
    forall i :: 0 <= i < |s| ==> IsHangul(s[i])
  }

  /** The Hangul syllables of `s`, in order. */
  function HangulOnly(s: string): string
  {
    if s == [] then [] else (if IsHangul(s[0]) then [s[0]] else []) + HangulOnly(s[1..])
  }

  function HangulPrefixLength(s: string): (n: nat)
    ensures n <= |s| && AllHangul(s[..n]) && (n < |s| ==> !IsHangul(s[n]))
  {
    if s == [] || !IsHangul(s[0]) then 0 else 1 + HangulPrefixLength(s[1..])
  }

  /** `re.findall(r'[가-힣]+', s)`: the maximal runs of Hangul. */
  function HangulRuns(s: string): (runs: seq<string>)
    decreases |s|
    ensures forall i :: 0 <= i < |runs| ==> runs[i] != [] && AllHangul(runs[i])
  {
    if s == [] then []
    else if !IsHangul(s[0]) then HangulRuns(s[1..])
    else
      var n := HangulPrefixLength(s);
      [s[..n]] + HangulRuns(s[n..])
  }

  predicate NoHangul(s: string)
  {
    forall i :: 0 <= i < |s| ==> !IsHangul(s[i])
  }

  /** `gaps[0] + words[0] + gaps[1] + ... + words[n - 1] + gaps[n]`. */
  function Weave(gaps: seq<string>, words: seq<string>): string
    requires |gaps| == |words| + 1
    decreases |words|
  {
    if words == [] then gaps[0] else gaps[0] + words[0] + Weave(gaps[1..], words[1..])
  }

  /** How `s` is laid around its Hangul runs: the non-Hangul stretches
      before, between and after them. */
  function Gaps(s: string): (gaps: seq<string>)
    decreases |s|
    ensures |gaps| == |HangulRuns(s)| + 1
  {
    if s == [] then [[]]
    else if !IsHangul(s[0]) then
      var g := Gaps(s[1..]);
      [[s[0]] + g[0]] + g[1..]
    else
      [[]] + Gaps(s[HangulPrefixLength(s)..])
  }

  /** The stretches around the runs: free of Hangul, and non-empty between
      two runs. */
  predicate Separating(gaps: seq<string>, words: seq<string>)
    requires |gaps| == |words| + 1
  {
    && (forall i :: 0 <= i < |gaps| ==> NoHangul(gaps[i]))
    && (forall i :: 0 < i < |words| ==> gaps[i] != [])
  }

  /** A non-Hangul prefix contributes no run. */
  lemma {:induction false} HangulRunsSkip(g: string, s: string)
    requires NoHangul(g)
    ensures HangulRuns(g + s) == HangulRuns(s)
  {
    if g != [] {
      assert (g + s)[0] == g[0] && (g + s)[1..] == g[1..] + s;
      HangulRunsSkip(g[1..], s);
    } else {
      assert g + s == s;
    }
  }

  lemma {:induction false} HangulPrefixLengthOf(h: string, s: string)
    requires AllHangul(h) && (s == [] || !IsHangul(s[0]))
    ensures HangulPrefixLength(h + s) == |h|
  {
    if h != [] {
      assert (h + s)[0] == h[0] && (h + s)[1..] == h[1..] + s;
      HangulPrefixLengthOf(h[1..], s);
    } else {
      assert h + s == s;
    }
  }

  /** A Hangul word that ends where the Hangul ends is one whole run. */
  lemma HangulRunsWord(h: string, s: string)
    requires h != [] && AllHangul(h) && (s == [] || !IsHangul(s[0]))
    ensures HangulRuns(h + s) == [h] + HangulRuns(s)
  {
    HangulPrefixLengthOf(h, s);
    assert (h + s)[0] == h[0];
    assert (h + s)[..|h|] == h && (h + s)[|h|..] == s;
  }

  /** Hangul words separated by non-Hangul text are found as exactly those runs. */
  lemma {:induction false} HangulRunsOfWeave(gaps: seq<string>, words: seq<string>)
    requires |gaps| == |words| + 1 && Separating(gaps, words)
    requires forall i :: 0 <= i < |words| ==> words[i] != [] && AllHangul(words[i])
    ensures HangulRuns(Weave(gaps, words)) == words
  {
    if words == [] {
      HangulRunsSkip(gaps[0], []);
      assert gaps[0] + [] == gaps[0];
    } else {
      var gs, ws := gaps[1..], words[1..];
      var rest := Weave(gs, ws);
      assert Separating(gs, ws) by {
        forall i | 0 < i < |ws| ensures gs[i] != [] {
          assert gs[i] == gaps[i + 1];
        }
        forall i | 0 <= i < |gs| ensures NoHangul(gs[i]) {
          assert gs[i] == gaps[i + 1];
        }
      }
      forall i | 0 <= i < |ws| ensures ws[i] != [] && AllHangul(ws[i]) {
        assert ws[i] == words[i + 1];
      }
      HangulRunsOfWeave(gs, ws);
      assert rest == [] || !IsHangul(rest[0]) by {
        assert NoHangul(gs[0]);
        if ws == [] {
          assert rest == gs[0];
        } else {
          assert gs[0] != [];
          assert rest == gs[0] + ws[0] + Weave(gs[1..], ws[1..]);
        }
      }
      HangulRunsSkip(gaps[0], words[0] + rest);
      assert Weave(gaps, words) == gaps[0] + (words[0] + rest);
      HangulRunsWord(words[0], rest);
    }
  }

  lemma WeavePrepend(c: char, g: seq<string>, r: seq<string>)
    requires |g| == |r| + 1
    ensures Weave([[c] + g[0]] + g[1..], r) == [c] + Weave(g, r)
  {
    var gaps := [[c] + g[0]] + g[1..];
    assert gaps[0] == [c] + g[0] && gaps[1..] == g[1..];
  }

  lemma WeaveWord(h: string, g: seq<string>, r: seq<string>)
    requires |g| == |r| + 1
    ensures Weave([[]] + g, [h] + r) == h + Weave(g, r)
  {
    assert ([[]] + g)[1..] == g && ([h] + r)[1..] == r;
  }

  /** Conversely, every text is its runs woven with the stretches around
      them; with GapsSeparate, the runs are maximal and nothing else is Hangul. */
  lemma {:induction false} WeaveOfGaps(s: string)
    ensures Weave(Gaps(s), HangulRuns(s)) == s
    decreases |s|
  {
    if s != [] {
      if !IsHangul(s[0]) {
        var t := s[1..];
        WeaveOfGaps(t);
        WeavePrepend(s[0], Gaps(t), HangulRuns(t));
        assert s == [s[0]] + t;
      } else {
        var n := HangulPrefixLength(s);
        var t := s[n..];
        WeaveOfGaps(t);
        WeaveWord(s[..n], Gaps(t), HangulRuns(t));
        assert s == s[..n] + t;
      }
    }
  }

  /** The stretches `Gaps` finds hold no Hangul and are non-empty between runs. */
  lemma {:induction false} GapsSeparate(s: string)
    ensures Separating(Gaps(s), HangulRuns(s))
    ensures s != [] && !IsHangul(s[0]) ==> Gaps(s)[0] != []
    decreases |s|
  {
    if s != [] {
      var gaps, runs := Gaps(s), HangulRuns(s);
      if !IsHangul(s[0]) {
        var t := s[1..];
        var g := Gaps(t);
        GapsSeparate(t);
        assert gaps == [[s[0]] + g[0]] + g[1..] && |runs| == |HangulRuns(t)|;
        assert NoHangul(gaps[0]) by {
          assert NoHangul(g[0]);
        }
        forall i | 0 < i < |gaps| ensures gaps[i] == g[i] {
        }
      } else {
        var n := HangulPrefixLength(s);
        var t := s[n..];
        var g := Gaps(t);
        GapsSeparate(t);
        assert gaps == [[]] + g && |runs| == |HangulRuns(t)| + 1;
        forall i | 0 < i < |gaps| ensures gaps[i] == g[i - 1] {
        }
        if |runs| > 1 {
          assert t != [] && t[0] == s[n];
        }
      }
    }
  }

  function Concat(parts: seq<string>): string
  {
    if parts == [] then [] else parts[0] + Concat(parts[1..])
  }

  /** `extract_korean_bird_names_from_filename(filename)` */
  function ExtractKoreanBirdNames(filename: string): (names: seq<string>)
    ensures |names| <= 1
  {
    var runs := HangulRuns(CleanBaseName(filename));
    if runs == [] then [] else [Join(" ", runs)]
  }

  /** Hangul words separated by single spaces, with no space at either end. */
  predicate IsSpacedHangul(w: string)
  {
    && w != [] && IsHangul(w[0]) && IsHangul(w[|w| - 1])
    && (forall i :: 0 <= i < |w| ==> IsHangul(w[i]) || w[i] == ' ')
    && (forall i :: 0 <= i < |w| - 1 ==> w[i] == ' ' ==> w[i + 1] != ' ')
  }

  lemma {:induction false} HangulOnlyAppend(a: string, b: string)
    ensures HangulOnly(a + b) == HangulOnly(a) + HangulOnly(b)
  {
    if a != [] {
      assert (a + b)[1..] == a[1..] + b && (a + b)[0] == a[0];
      HangulOnlyAppend(a[1..], b);
    } else {
      assert a + b == b;
    }
  }

  lemma {:induction false} HangulOnlyOfHangul(s: string)
    requires AllHangul(s)
    ensures HangulOnly(s) == s
  {
    if s != [] {
      HangulOnlyOfHangul(s[1..]);
    }
  }

  lemma {:induction false} HangulRunsConcat(s: string)
    ensures Concat(HangulRuns(s)) == HangulOnly(s)
    decreases |s|
  {
    if s != [] {
      if !IsHangul(s[0]) {
        HangulRunsConcat(s[1..]);
      } else {
        var n := HangulPrefixLength(s);
        HangulRunsConcat(s[n..]);
        assert s == s[..n] + s[n..];
        HangulOnlyAppend(s[..n], s[n..]);
        HangulOnlyOfHangul(s[..n]);
      }
    }
  }

  /** Joining non-empty Hangul runs with single spaces gives a spaced Hangul
      name whose letters, spaces removed, are the runs' letters in order. */
  lemma JoinRunsShape(runs: seq<string>)
    requires runs != []
    requires forall i :: 0 <= i < |runs| ==> runs[i] != [] && AllHangul(runs[i])
    ensures IsSpacedHangul(Join(" ", runs))
    ensures DeleteChar(Join(" ", runs), ' ') == Concat(runs)
  {
    JoinRunsSpaced(runs);
    JoinRunsLetters(runs);
  }

  lemma {:induction false} JoinRunsSpaced(runs: seq<string>)
    requires runs != []
    requires forall i :: 0 <= i < |runs| ==> runs[i] != [] && AllHangul(runs[i])
    ensures IsSpacedHangul(Join(" ", runs))
  {
    if |runs| > 1 {
      JoinRunsSpaced(runs[1..]);
      var w := Join(" ", runs);
      var h := runs[0];
      var tail := Join(" ", runs[1..]);
      assert w == h + " " + tail;
      forall i | 0 <= i < |w| - 1 && w[i] == ' ' ensures w[i + 1] != ' ' {
        if i > |h| {
          assert w[i] == tail[i - |h| - 1];
          assert w[i + 1] == tail[i - |h|];
        }
      }
      forall i | 0 <= i < |w| ensures IsHangul(w[i]) || w[i] == ' ' {
        if i < |h| {
          assert w[i] == h[i];
        } else if i > |h| {
          assert w[i] == tail[i - |h| - 1];
        }
      }
    }
  }

  lemma {:induction false} JoinRunsLetters(runs: seq<string>)
    requires runs != []
    requires forall i :: 0 <= i < |runs| ==> AllHangul(runs[i])
    ensures DeleteChar(Join(" ", runs), ' ') == Concat(runs)
  {
    var h := runs[0];
    HangulHasNoBlank(h);
    DeleteCharAbsent(h, ' ');
    assert Concat(runs) == h + Concat(runs[1..]);
    if |runs| == 1 {
      assert Concat(runs[1..]) == [];
    } else {
      var tail := Join(" ", runs[1..]);
      JoinRunsLetters(runs[1..]);
      assert Join(" ", runs) == (h + " ") + tail;
      DeleteCharAppend(h + " ", tail, ' ');
      DeleteCharAppend(h, " ", ' ');
      assert DeleteChar(" ", ' ') == [];
    }
  }

  lemma HangulHasNoBlank(s: string)
    requires AllHangul(s)
    ensures forall i :: 0 <= i < |s| ==> s[i] != ' '
  {
  }

  lemma {:induction false} HangulOnlySeparators(s: string)
    ensures HangulOnly(SeparatorsToSpaces(s)) == HangulOnly(s)
  {
    if s != [] {
      HangulOnlySeparators(s[1..]);
    }
  }

  lemma {:induction false} HangulOnlyOfSpaces(s: string)
    requires forall i :: 0 <= i < |s| ==> IsSpace(s[i])
    ensures HangulOnly(s) == []
  {
    if s != [] {
      HangulOnlyOfSpaces(s[1..]);
    }
  }

  lemma {:induction false} HangulOnlyRuns(s: string, inRun: bool)
    ensures HangulOnly(Runs(s, " ", inRun)) == HangulOnly(s)
  {
    if s != [] {
      HangulOnlyRuns(s[1..], IsSpace(s[0]));
      var head := if IsSpace(s[0]) then (if inRun then [] else " ") else [s[0]];
      HangulOnlyAppend(head, Runs(s[1..], " ", IsSpace(s[0])));
      assert HangulOnly(" ") == [];
    }
  }

  lemma HangulOnlyTrimLeft(s: string)
    ensures HangulOnly(TrimLeft(s)) == HangulOnly(s)
  {
    var l := TrimLeft(s);
    TrimLeftDropsSpaces(s);
    assert s == s[..|s| - |l|] + l;
    HangulOnlyAppend(s[..|s| - |l|], l);
    HangulOnlyOfSpaces(s[..|s| - |l|]);
  }

  lemma HangulOnlyTrimRight(s: string)
    ensures HangulOnly(TrimRight(s)) == HangulOnly(s)
  {
    var r := TrimRight(s);
    TrimRightDropsSpaces(s);
    assert s == r + s[|r|..];
    HangulOnlyAppend(r, s[|r|..]);
    HangulOnlyOfSpaces(s[|r|..]);
  }

  /** The Hangul that survives into the cleaned base name is exactly the
      Hangul left after the extension and both timestamp shapes are cut. */
  lemma CleanBaseNameHangul(filename: string)
    ensures HangulOnly(CleanBaseName(filename))
            == HangulOnly(RemoveDashedStamps(RemoveCompactStamps(StripExtension(filename))))
  {
    var s := RemoveDashedStamps(RemoveCompactStamps(StripExtension(filename)));
    HangulOnlySeparators(s);
    HangulOnlyRuns(SeparatorsToSpaces(s), false);
    HangulOnlyTrimLeft(ReplaceSpaceRuns(SeparatorsToSpaces(s), " "));
    HangulOnlyTrimRight(TrimLeft(ReplaceSpaceRuns(SeparatorsToSpaces(s), " ")));
  }

  /** The tokenizer returns at most one candidate; there is one exactly when
      Hangul survives the cleaning, and it is the surviving Hangul, in order,
      with single spaces between the runs. */
  lemma ExtractKoreanBirdNamesShape(filename: string)
    ensures var names := ExtractKoreanBirdNames(filename);
            var kept := HangulOnly(RemoveDashedStamps(RemoveCompactStamps(StripExtension(filename))));
            && |names| <= 1
            && (names == [] <==> kept == [])
            && (names != [] ==> IsSpacedHangul(names[0]) && DeleteChar(names[0], ' ') == kept)
  {
    var clean := CleanBaseName(filename);
    var runs := HangulRuns(clean);
    CleanBaseNameHangul(filename);
    HangulRunsConcat(clean);
    if runs != [] {
      JoinRunsShape(runs);
      assert runs[0] != [];
      assert Concat(runs) == runs[0] + Concat(runs[1..]);
    }
  }

  lemma {:induction false} StripExtensionOf(stem: string, ext: string)
    requires ext != [] && '.' !in ext
    ensures StripExtension(stem + "." + ext) == stem
  {
    var s := stem + "." + ext;
    var i := |stem|;
    assert s[i] == '.';
    assert s[..i] == stem;
    assert forall k :: i < k < |s| ==> s[k] == ext[k - i - 1];
  }

  /** Hangul after the last `.` never reaches the candidate: only the stem counts. */
  lemma ExtensionIsIgnored(stem: string, ext1: string, ext2: string)
    requires ext1 != [] && '.' !in ext1
    requires ext2 != [] && '.' !in ext2
    ensures ExtractKoreanBirdNames(stem + "." + ext1) == ExtractKoreanBirdNames(stem + "." + ext2)
  {
    StripExtensionOf(stem, ext1);
    StripExtensionOf(stem, ext2);
  }

  predicate NoDigit(s: string)
  {
    forall i :: 0 <= i < |s| ==> !IsDigit(s[i])
  }

  /** Neither timestamp shape starts at a non-digit. */
  lemma NoStampAtNonDigit(s: string)
    requires s != [] && !IsDigit(s[0])
    ensures !CompactStampAhead(s) && !DashedStampAhead(s)
  {
    if |s| >= 8 {
      assert s[..8][0] == s[0];
    }
    if |s| >= 4 {
      assert s[..4][0] == s[0];
    }
  }

  lemma {:induction false} RemoveCompactStampsSkip(a: string, rest: string)
    requires NoDigit(a)
    ensures RemoveCompactStamps(a + rest) == a + RemoveCompactStamps(rest)
  {
    if a != [] {
      assert !IsDigit(a[0]) && (a + rest)[0] == a[0];
      NoStampAtNonDigit(a + rest);
      assert (a + rest)[1..] == a[1..] + rest;
      RemoveCompactStampsSkip(a[1..], rest);
    } else {
      assert a + rest == rest;
    }
  }

  lemma {:induction false} RemoveDashedStampsSkip(a: string, rest: string)
    requires NoDigit(a)
    ensures RemoveDashedStamps(a + rest) == a + RemoveDashedStamps(rest)
  {
    if a != [] {
      assert !IsDigit(a[0]) && (a + rest)[0] == a[0];
      NoStampAtNonDigit(a + rest);
      assert (a + rest)[1..] == a[1..] + rest;
      RemoveDashedStampsSkip(a[1..], rest);
    } else {
      assert a + rest == rest;
    }
  }

  lemma HangulHasNoDigit(s: string)
    requires AllHangul(s)
    ensures NoDigit(s) && NoSpace(s) && '.' !in s && '_' !in s && '-' !in s
  {
    forall i | 0 <= i < |s| ensures !IsDigit(s[i]) && !IsSpace(s[i]) {
      assert IsHangul(s[i]);
    }
  }

  lemma {:induction false} SeparatorsToSpacesNone(s: string)
    requires '_' !in s && '-' !in s
    ensures SeparatorsToSpaces(s) == s
  {
    if s != [] {
      SeparatorsToSpacesNone(s[1..]);
    }
  }

  lemma TidyHangul(h: string)
    requires AllHangul(h)
    ensures Tidy(h) == h
  {
    HangulHasNoDigit(h);
    SeparatorsToSpacesNone(h);
  }

  lemma RunsOfHangul(h: string)
    requires h != [] && AllHangul(h)
    ensures HangulRuns(h) == [h]
  {
    var n := HangulPrefixLength(h);
    assert n == |h|;
    assert h[..n] == h && h[n..] == [];
  }

  /** Cleaning a pure-Hangul stem leaves it as one run: the candidate is the stem. */
  lemma CandidateOfHangulStem(h: string, ext: string)
    requires h != [] && AllHangul(h)
    requires ext != [] && '.' !in ext
    ensures ExtractKoreanBirdNames(h + "." + ext) == [h]
  {
    StripExtensionOf(h, ext);
    HangulHasNoDigit(h);
    RemoveCompactStampsSkip(h, []);
    RemoveDashedStampsSkip(h, []);
    assert h + [] == h;
    TidyHangul(h);
    RunsOfHangul(h);
  }

  /** A Hangul stem passes the remaining stages unchanged and forms one run. */
  lemma HangulSurvivesCleaning(h: string)
    requires h != [] && AllHangul(h)
    ensures RemoveDashedStamps(h) == h && Tidy(h) == h && HangulRuns(h) == [h]
  {
    HangulHasNoDigit(h);
    RemoveDashedStampsSkip(h, []);
    assert h + [] == h;
    TidyHangul(h);
    RunsOfHangul(h);
  }

  lemma CompactStampRemoved(h1: string, stamp: string, h2: string)
    requires AllHangul(h1) && h2 != [] && AllHangul(h2)
    requires |stamp| == 15 && CompactStampAhead(stamp)
    ensures RemoveCompactStamps(h1 + stamp + h2) == h1 + h2
  {
    HangulHasNoDigit(h1);
    HangulHasNoDigit(h2);
    var rest := stamp + h2;
    assert h1 + stamp + h2 == h1 + rest;
    RemoveCompactStampsSkip(h1, rest);
    assert CompactStampAhead(rest) by {
      assert rest[..8] == stamp[..8] && rest[9..15] == stamp[9..15] && rest[8] == stamp[8];
    }
    assert rest[15] == h2[0] && rest[15..] == h2;
    RemoveCompactStampsSkip(h2, []);
    assert h2 + [] == h2;
  }

  /** A compact `YYYYMMDD_HHMMSS` timestamp between two Hangul words is
      deleted before extraction, so the two words merge into one run. */
  lemma CompactStampMergesHangul(h1: string, stamp: string, h2: string, ext: string)
    requires h1 != [] && h2 != [] && AllHangul(h1) && AllHangul(h2)
    requires |stamp| == 15 && CompactStampAhead(stamp)
    requires ext != [] && '.' !in ext
    ensures ExtractKoreanBirdNames(h1 + stamp + h2 + "." + ext) == [h1 + h2]
  {
    StripExtensionOf(h1 + stamp + h2, ext);
    CompactStampRemoved(h1, stamp, h2);
    HangulSurvivesCleaning(h1 + h2);
  }

  lemma {:induction false} RemoveCompactStampsNone(s: string)
    requires forall p :: 0 <= p < |s| ==> !CompactStampAhead(s[p..])
    ensures RemoveCompactStamps(s) == s
  {
    if s != [] {
      assert s[0..] == s;
      forall p | 0 <= p < |s| - 1 ensures !CompactStampAhead(s[1..][p..]) {
        assert s[1..][p..] == s[p + 1..];
      }
      RemoveCompactStampsNone(s[1..]);
    }
  }

  /** No compact timestamp hides in a dashed one between Hangul words. */
  lemma DashedStampNotCompact(h1: string, stamp: string, h2: string)
    requires AllHangul(h1) && AllHangul(h2)
    requires |stamp| == 19 && DashedStampAhead(stamp)
    ensures RemoveCompactStamps(h1 + stamp + h2) == h1 + stamp + h2
  {
    var s := h1 + stamp + h2;
    var n := |h1|;
    HangulHasNoDigit(h1);
    HangulHasNoDigit(h2);
    forall p | 0 <= p < |s| ensures !CompactStampAhead(s[p..]) {
      if |s[p..]| >= 15 {
        // some position among the first eight of s[p..] is not a digit
        var q := if p < n then p
                 else if p - n <= 4 then n + 4
                 else if p - n <= 7 then n + 7
                 else if p - n <= 10 then n + 10
                 else if p - n <= 13 then n + 13
                 else if p - n <= 16 then n + 16
                 else if p - n < 19 then n + 19
                 else p;
        assert p <= q < p + 8;
        assert !IsDigit(s[q]) by {
          if q < n {
            assert s[q] == h1[q];
          } else if q >= n + 19 {
            assert s[q] == h2[q - n - 19];
          } else {
            assert s[q] == stamp[q - n];
          }
        }
        assert s[p..][..8][q - p] == s[q];
      }
    }
    RemoveCompactStampsNone(s);
  }

  lemma DashedStampRemoved(h1: string, stamp: string, h2: string)
    requires AllHangul(h1) && AllHangul(h2)
    requires |stamp| == 19 && DashedStampAhead(stamp)
    ensures RemoveDashedStamps(h1 + stamp + h2) == h1 + h2
  {
    HangulHasNoDigit(h1);
    HangulHasNoDigit(h2);
    var rest := stamp + h2;
    assert h1 + stamp + h2 == h1 + rest;
    RemoveDashedStampsSkip(h1, rest);
    assert DashedStampAhead(rest) by {
      assert rest[..4] == stamp[..4] && rest[5..7] == stamp[5..7] && rest[8..10] == stamp[8..10];
      assert rest[11..13] == stamp[11..13] && rest[14..16] == stamp[14..16] && rest[17..19] == stamp[17..19];
    }
    assert rest[19..] == h2;
    RemoveDashedStampsSkip(h2, []);
    assert h2 + [] == h2;
  }

  /** The same for the dashed `YYYY-MM-DD HH:MM:SS` shape. */
  lemma DashedStampMergesHangul(h1: string, stamp: string, h2: string, ext: string)
    requires h1 != [] && h2 != [] && AllHangul(h1) && AllHangul(h2)
    requires |stamp| == 19 && DashedStampAhead(stamp)
    requires ext != [] && '.' !in ext
    ensures ExtractKoreanBirdNames(h1 + stamp + h2 + "." + ext) == [h1 + h2]
  {
    StripExtensionOf(h1 + stamp + h2, ext);
    DashedStampNotCompact(h1, stamp, h2);
    DashedStampRemoved(h1, stamp, h2);
    var h := h1 + h2;
    HangulSurvivesCleaning(h);
  }

  lemma {:induction false} SeparatorsToSpacesAppend(a: string, b: string)
    ensures SeparatorsToSpaces(a + b) == SeparatorsToSpaces(a) + SeparatorsToSpaces(b)
  {
    if a != [] {
      assert (a + b)[0] == a[0] && (a + b)[1..] == a[1..] + b;
      SeparatorsToSpacesAppend(a[1..], b);
    } else {
      assert a + b == b;
    }
  }

  /** Each `_` and `-` becomes a space and every other character stays. */
  lemma {:induction false} SeparatorsToSpacesAt(s: string)
    ensures forall i :: 0 <= i < |s| ==>
              SeparatorsToSpaces(s)[i] == if s[i] == '_' || s[i] == '-' then ' ' else s[i]
  {
    if s != [] {
      SeparatorsToSpacesAt(s[1..]);
    }
  }

  /** What a non-Hangul separator turns into after the cleaning: still
      non-empty and still free of Hangul. */
  lemma CleanedSeparator(sep: string)
    requires sep != [] && NoHangul(sep)
    ensures var x := Runs(SeparatorsToSpaces(sep), " ", false);
            x != [] && NoHangul(x)
  {
    var y := SeparatorsToSpaces(sep);
    var x := Runs(y, " ", false);
    RunsNonEmpty(y, " ");
    RunsChars(y, " ", false);
    SeparatorsToSpacesAt(sep);
    forall i | 0 <= i < |x| ensures !IsHangul(x[i]) {
      assert x[i] in x;
      if x[i] in y {
        var j :| 0 <= j < |y| && y[j] == x[i];
      }
    }
  }

  lemma SeparatorsBetween(a: string, sep: string, b: string)
    requires '_' !in a && '-' !in a && '_' !in b && '-' !in b
    ensures SeparatorsToSpaces(a + sep + b) == a + (SeparatorsToSpaces(sep) + b)
  {
    assert a + sep + b == a + (sep + b);
    SeparatorsToSpacesAppend(a, sep + b);
    SeparatorsToSpacesAppend(sep, b);
    SeparatorsToSpacesNone(a);
    SeparatorsToSpacesNone(b);
  }

  lemma RunsBetween(a: string, y: string, b: string)
    requires a != [] && NoSpace(a) && NoSpace(b)
    ensures Runs(a + (y + b), " ", false) == a + (Runs(y, " ", false) + b)
  {
    assert !IsSpace(a[|a| - 1]);
    RunsAppend(a, y + b, " ", false);
    RunsFacts(a, " ", false);
    RunsAppendNoSpace(y, b, " ", false);
  }

  lemma StripUnpadded(t: string)
    requires t != [] && !IsSpace(t[0]) && !IsSpace(t[|t| - 1])
    ensures Strip(t) == t
  {
    assert TrimLeft(t) == t;
  }

  /** Tidying two Hangul words around a separator only cleans the separator. */
  lemma TidySeparatedWords(h1: string, sep: string, h2: string)
    requires h1 != [] && h2 != [] && AllHangul(h1) && AllHangul(h2)
    ensures Tidy(h1 + sep + h2) == h1 + (Runs(SeparatorsToSpaces(sep), " ", false) + h2)
  {
    HangulHasNoDigit(h1);
    HangulHasNoDigit(h2);
    var y := SeparatorsToSpaces(sep);
    SeparatorsBetween(h1, sep, h2);
    RunsBetween(h1, y, h2);
    var t := h1 + (Runs(y, " ", false) + h2);
    assert ReplaceSpaceRuns(SeparatorsToSpaces(h1 + sep + h2), " ") == t;
    assert t[0] == h1[0] && t[|t| - 1] == h2[|h2| - 1];
    StripUnpadded(t);
  }

  /** A stem without digits loses only its extension before tidying. */
  lemma CleanDigitFreeStem(stem: string, ext: string)
    requires NoDigit(stem) && ext != [] && '.' !in ext
    ensures CleanBaseName(stem + "." + ext) == Tidy(stem)
  {
    StripExtensionOf(stem, ext);
    RemoveCompactStampsSkip(stem, []);
    RemoveDashedStampsSkip(stem, []);
    assert stem + [] == stem;
  }

  /** Two Hangul words around a non-empty stretch without Hangul are two runs. */
  lemma RunsOfSeparatedWords(h1: string, x: string, h2: string)
    requires h1 != [] && h2 != [] && AllHangul(h1) && AllHangul(h2)
    requires x != [] && NoHangul(x)
    ensures HangulRuns(h1 + (x + h2)) == [h1, h2]
  {
    HangulRunsSkip(x, h2);
    RunsOfHangul(h2);
    assert (x + h2)[0] == x[0];
    HangulRunsWord(h1, x + h2);
  }

  lemma NoDigitAppend(a: string, b: string)
    requires NoDigit(a) && NoDigit(b)
    ensures NoDigit(a + b)
  {
    forall i | 0 <= i < |a + b| ensures !IsDigit((a + b)[i]) {
      if i >= |a| {
        assert (a + b)[i] == b[i - |a|];
      }
    }
  }

  /** The base name of two Hangul words around a digit-free separator is
      the two words around the cleaned separator. */
  lemma CleanSeparatedWords(h1: string, sep: string, h2: string, ext: string)
    requires h1 != [] && h2 != [] && AllHangul(h1) && AllHangul(h2)
    requires NoDigit(sep) && ext != [] && '.' !in ext
    ensures CleanBaseName(h1 + sep + h2 + "." + ext) == h1 + (Runs(SeparatorsToSpaces(sep), " ", false) + h2)
  {
    var stem := h1 + sep + h2;
    HangulHasNoDigit(h1);
    HangulHasNoDigit(h2);
    NoDigitAppend(h1, sep);
    NoDigitAppend(h1 + sep, h2);
    CleanDigitFreeStem(stem, ext);
    TidySeparatedWords(h1, sep, h2);
  }

  /** Two Hangul words with a separator between them that holds no Hangul,
      no digit and no `.` (a space, `_`, `-`, Latin letters, ...) are two runs,
      joined by one space into the single candidate. */
  lemma SeparatedWordsJoined(h1: string, sep: string, h2: string, ext: string)
    requires h1 != [] && h2 != [] && AllHangul(h1) && AllHangul(h2)
    requires sep != [] && NoHangul(sep) && NoDigit(sep) && '.' !in sep
    requires ext != [] && '.' !in ext
    ensures ExtractKoreanBirdNames(h1 + sep + h2 + "." + ext) == [h1 + " " + h2]
  {
    CleanSeparatedWords(h1, sep, h2, ext);
    var x := Runs(SeparatorsToSpaces(sep), " ", false);
    CleanedSeparator(sep);
    RunsOfSeparatedWords(h1, x, h2);
    assert [h1, h2][1..] == [h2];
    assert Join(" ", [h2]) == h2;
    assert Join(" ", [h1, h2]) == h1 + " " + h2;
  }
}
