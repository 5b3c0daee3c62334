/** The online-encyclopedia lookup: a cascade of regular expressions over
    the Korean summary, the English page for what is missing. */
module Wiki {
  import opened Common
  import opened Records

  /** One regular expression of a cascade: the first match's group 1, if any.
      The expressions themselves are parameters of the model. */
  type Matcher = string -> Option<string>

  /** The five cascades of name_check.py:62-67, 76-80, 88-92, 131-135 and 152-156. */
  datatype Patterns = Patterns(scientific: seq<Matcher>, order: seq<Matcher>, family: seq<Matcher>,
                               englishScientific: seq<Matcher>, englishName: seq<Matcher>)

  /** A Korean page: its summary and the title of its English counterpart, if linked. */
  datatype KoreanPage = KoreanPage(summary: string, englishLink: Option<string>)

  /** The two encyclopedias: existing Korean pages by title, English summaries by title. */
  datatype WikiClient = WikiClient(korean: map<string, KoreanPage>, english: map<string, string>)

  /** The index of the first pattern whose match satisfies `ok`; a match
      that fails `ok` moves the search on to the next pattern. */
  function FirstIndexWhere(patterns: seq<Matcher>, text: string, ok: Option<string> -> bool): (r: Option<nat>)
    ensures r.Some? ==> r.value < |patterns| && ok(patterns[r.value](text))
                        && forall j :: 0 <= j < r.value ==> !ok(patterns[j](text))
    ensures r.None? ==> forall j :: 0 <= j < |patterns| ==> !ok(patterns[j](text))
  {
    if patterns == [] then None
    else if ok(patterns[0](text)) then Some(0)
    else
      match FirstIndexWhere(patterns[1..], text, ok)
      case None => None
      case Some(i) => Some(i + 1)
  }

  /** `for pattern in patterns: m = re.search(pattern, text); if m: return m.group(1).strip()` */
  function FirstMatch(patterns: seq<Matcher>, text: string): Option<string>
  {
    match FirstIndexWhere(patterns, text, IsMatch)
    case None => None
    case Some(i) => Some(Strip(patterns[i](text).value))
  }

  predicate IsMatch(m: Option<string>)
  {
    m.Some?
  }

  method SearchPatterns(patterns: seq<Matcher>, text: string) returns (found: Option<string>)
    ensures found == FirstMatch(patterns, text)
    ensures found.Some? <==> exists j :: 0 <= j < |patterns| && patterns[j](text).Some?
  {
    found := None;
    var k := 0;
    while k < |patterns|
      invariant 0 <= k <= |patterns|
      invariant forall j :: 0 <= j < k ==> patterns[j](text).None?
      invariant found == None
    {
      var m := patterns[k](text);
      if m.Some? {
        found := Some(Strip(m.value));
        FirstIndexWhereIs(patterns, text, IsMatch, k);
        return;
      }
      k := k + 1;
    }
    FirstIndexWhereNone(patterns, text, IsMatch);
  }

  /** One of the characters `()[]{}/`. */
  predicate IsBracketOrSlash(c: char)
  {
    c == '(' || c == ')' || c == '[' || c == ']' || c == '{' || c == '}' || c == '/'
  }

  /** `not any(char in s for char in '()[]{}/')` */
  predicate NoBracketOrSlash(s: string)
  {
    s == [] || (!IsBracketOrSlash(s[0]) && NoBracketOrSlash(s[1..]))
  }

  /** `a.lower() == b.lower()` */
  predicate SameIgnoringCase(a: string, b: string)
  {
    |a| == |b| && (a == [] || (LowerChar(a[0]) == LowerChar(b[0]) && SameIgnoringCase(a[1..], b[1..])))
  }

  lemma {:induction false} SameIgnoringCaseIsLowerEquality(a: string, b: string)
    ensures SameIgnoringCase(a, b) <==> Lower(a) == Lower(b)
  {
    if |a| == |b| && a != [] {
      SameIgnoringCaseIsLowerEquality(a[1..], b[1..]);
      assert Lower(a) == [LowerChar(a[0])] + Lower(a[1..]);
      assert Lower(b) == [LowerChar(b[0])] + Lower(b[1..]);
      if Lower(a) == Lower(b) {
        assert Lower(a)[0] == Lower(b)[0];
        assert Lower(a)[1..] == Lower(b)[1..];
      }
    }
  }

  /** The guard at name_check.py:163-165 on an English name found in the Korean summary. */
  predicate AcceptableEnglishName(candidate: string, scientific: string)
  {
    !SameIgnoringCase(candidate, scientific) && 5 < |candidate| < 50 && NoBracketOrSlash(candidate)
  }

  /** A match whose stripped group passes the guard. */
  predicate Accepts(m: Option<string>, scientific: string)
  {
    m.Some? && AcceptableEnglishName(Strip(m.value), scientific)
  }

  /** name_check.py:151-169: the stripped match of the first pattern that passes the guard. */
  function FirstAccepted(patterns: seq<Matcher>, text: string, scientific: string): Option<string>
  {
    match FirstIndexWhere(patterns, text, m => Accepts(m, scientific))
    case None => None
    case Some(i) => Some(Strip(patterns[i](text).value))
  }

  method SearchEnglishName(patterns: seq<Matcher>, text: string, scientific: string) returns (found: Option<string>)
    ensures found == FirstAccepted(patterns, text, scientific)
    ensures found.Some? ==> AcceptableEnglishName(found.value, scientific)
  {
    ghost var ok := m => Accepts(m, scientific);
    found := None;
    var k := 0;
    while k < |patterns|
      invariant 0 <= k <= |patterns|
      invariant forall j :: 0 <= j < k ==> !ok(patterns[j](text))
      invariant found == None
    {
      var m := patterns[k](text);
      assert ok(m) == Accepts(m, scientific);
      if m.Some? {
        var candidate := Strip(m.value);
        if AcceptableEnglishName(candidate, scientific) {
          found := Some(candidate);
          FirstIndexWhereIs(patterns, text, ok, k);
          return;
        }
      }
      k := k + 1;
    }
    FirstIndexWhereNone(patterns, text, ok);
  }

  lemma FirstIndexWhereIs(patterns: seq<Matcher>, text: string, ok: Option<string> -> bool, k: nat)
    requires k < |patterns| && ok(patterns[k](text))
    requires forall j :: 0 <= j < k ==> !ok(patterns[j](text))
    ensures FirstIndexWhere(patterns, text, ok) == Some(k)
  {
  }

  lemma FirstIndexWhereNone(patterns: seq<Matcher>, text: string, ok: Option<string> -> bool)
    requires forall j :: 0 <= j < |patterns| ==> !ok(patterns[j](text))
    ensures FirstIndexWhere(patterns, text, ok) == None
  {
  }

  function FirstIndexOf(s: string, c: char): (r: Option<nat>)
    ensures r.Some? ==> r.value < |s| && s[r.value] == c && c !in s[..r.value]
    ensures r.None? ==> c !in s
  {
    if s == [] then None
    else if s[0] == c then Some(0)
    else
      match FirstIndexOf(s[1..], c)
      case None => None
      case Some(i) =>
        assert s[..i + 1] == [s[0]] + s[1..][..i];
        Some(i + 1)
  }

  /** The length of the `\s*\([^)]*\)` match at the start of `s`, if there is one. */
  function ParenthesisedPrefix(s: string): (n: Option<nat>)
    ensures n.Some? ==> 0 < n.value <= |s|
    ensures n.None? && s != [] && s[0] == '(' ==> ')' !in s
    ensures '(' !in s ==> n.None?
  {
    var t := TrimLeft(s);
    if t != [] && t[0] == '(' then
      assert t[0] == s[|s| - |t|];
      match FirstIndexOf(t, ')')
      case None => None
      case Some(i) => Some(|s| - |t| + i + 1)
    else None
  }

  /** `re.sub(r'\s*\([^)]*\)', '', s)`: each parenthesised part goes, with the whitespace before it. */
  function RemoveParentheticals(s: string): string
    decreases |s|
  {
    if s == [] then []
    else
      match ParenthesisedPrefix(s)
      case Some(n) => RemoveParentheticals(s[n..])
      case None => [s[0]] + RemoveParentheticals(s[1..])
  }

  /** The result keeps only characters of `s`. */
  lemma {:induction false} RemoveParentheticalsChars(s: string)
    decreases |s|
    ensures forall c :: c in RemoveParentheticals(s) ==> c in s
  {
    if s != [] {
      var k := if ParenthesisedPrefix(s).Some? then ParenthesisedPrefix(s).value else 1;
      RemoveParentheticalsChars(s[k..]);
      SuffixChars(s, k, RemoveParentheticals(s[k..]));
    }
  }

  lemma SuffixChars(s: string, k: nat, r: string)
    requires k <= |s|
    requires forall c :: c in r ==> c in s[k..]
    ensures forall c :: c in r ==> c in s
  {
    forall c | c in r ensures c in s {
      var i :| 0 <= i < |s[k..]| && s[k..][i] == c;
      assert s[k + i] == c;
    }
  }

  /** No `(` in `r` is closed later by a `)`. */
  predicate NoClosedParenthesis(r: string)
  {
    forall i, j :: 0 <= i < j < |r| && r[i] == '(' ==> r[j] != ')'
  }

  /** No parenthesised part is left in the result. */
  lemma {:induction false} RemoveParentheticalsCloses(s: string)
    decreases |s|
    ensures NoClosedParenthesis(RemoveParentheticals(s))
  {
    if s != [] {
      match ParenthesisedPrefix(s)
      case Some(n) =>
        RemoveParentheticalsCloses(s[n..]);
      case None =>
        RemoveParentheticalsCloses(s[1..]);
        if s[0] == '(' {
          RemoveParentheticalsChars(s[1..]);
        }
        NoClosedParenthesisCons(s[0], RemoveParentheticals(s[1..]));
    }
  }

  lemma NoClosedParenthesisCons(c: char, q: string)
    requires NoClosedParenthesis(q)
    requires c == '(' ==> ')' !in q
    ensures NoClosedParenthesis([c] + q)
  {
    var r := [c] + q;
    forall i, j | 0 <= i < j < |r| && r[i] == '(' ensures r[j] != ')' {
      assert r[j] == q[j - 1];
      if i > 0 {
        assert r[i] == q[i - 1];
      }
    }
  }

  /** A title without `(` is left as it is. */
  lemma {:induction false} RemoveParentheticalsNone(s: string)
    requires '(' !in s
    ensures RemoveParentheticals(s) == s
  {
    if s != [] {
      RemoveParentheticalsNone(s[1..]);
      assert s == [s[0]] + s[1..];
    }
  }

  /** The English page title after name_check.py:118-121. */
  function CleanEnglishTitle(title: string): string
  {
    RemoveParentheticals(Strip(title))
  }

  /** What the English counterpart page contributes: a common name (or "")
      and the scientific name after the English-summary fallback. */
  function EnglishPageInfo(client: WikiClient, patterns: Patterns, page: KoreanPage, scientific: string): (string, string)
  {
    match page.englishLink
    case None => ("", scientific)
    case Some(title) =>
      if title !in client.english then ("", scientific)
      else
        var clean := CleanEnglishTitle(title);
        var common := if clean != "" && |clean| < 50 then clean else "";
        var sci := if scientific == "" then OrEmpty(FirstMatch(patterns.englishScientific, client.english[title])) else scientific;
        (common, sci)
  }

  /** The English-page step of `get_info_from_wikipedia` (name_check.py:100-148). */
  method ReadEnglishPage(client: WikiClient, patterns: Patterns, page: KoreanPage, scientific: string)
    returns (common: string, scientificOut: string)
    ensures (common, scientificOut) == EnglishPageInfo(client, patterns, page, scientific)
  {
    common, scientificOut := "", scientific;
    if page.englishLink.Some? {
      var title := page.englishLink.value;
      if title in client.english {
        var clean := CleanEnglishTitle(title);
        if clean != "" && |clean| < 50 {
          common := clean;
        }
        if scientificOut == "" {
          var enSci := SearchPatterns(patterns.englishScientific, client.english[title]);
          if enSci.Some? {
            scientificOut := enSci.value;
          }
        }
      }
    }
  }

  /** What `get_info_from_wikipedia(wiki, korean_name)` returns. */
  function WikiLookup(wiki: Option<WikiClient>, patterns: Patterns, koreanName: string): Taxa
  {
    if wiki.None? || koreanName == "" || koreanName !in wiki.value.korean then EmptyTaxa
    else
      var page := wiki.value.korean[koreanName];
      var summary := page.summary;
      var english := EnglishPageInfo(wiki.value, patterns, page, OrEmpty(FirstMatch(patterns.scientific, summary)));
      var common := if english.0 != "" then english.0 else OrEmpty(FirstAccepted(patterns.englishName, summary, english.1));
      Taxa(common, english.1, OrEmpty(FirstMatch(patterns.order, summary)), OrEmpty(FirstMatch(patterns.family, summary)))
  }

  /** `get_info_from_wikipedia(wiki, korean_name)` */
  method GetInfoFromWikipedia(wiki: Option<WikiClient>, patterns: Patterns, koreanName: string) returns (info: Taxa)
    ensures info == WikiLookup(wiki, patterns, koreanName)
  {
    info := EmptyTaxa;
    if wiki.None? || koreanName == "" {
      return;
    }
    var client := wiki.value;
    if koreanName !in client.korean {
      return;
    }
    var page := client.korean[koreanName];
    var summary := page.summary;
    var sci := SearchPatterns(patterns.scientific, summary);
    if sci.Some? {
      info := info.(scientificName := sci.value);
    }
    var order := SearchPatterns(patterns.order, summary);
    if order.Some? {
      info := info.(order := order.value);
    }
    var family := SearchPatterns(patterns.family, summary);
    if family.Some? {
      info := info.(family := family.value);
    }
    var common, scientific := ReadEnglishPage(client, patterns, page, info.scientificName);
    info := info.(commonName := common, scientificName := scientific);
    if info.commonName == "" {
      var eng := SearchEnglishName(patterns.englishName, summary, info.scientificName);
      if eng.Some? {
        info := info.(commonName := eng.value);
      }
    }
  }

  /** Without a client, a name or a Korean page, the lookup finds nothing. */
  lemma WikiLookupNothing(wiki: Option<WikiClient>, patterns: Patterns, koreanName: string)
    requires wiki.None? || koreanName == "" || koreanName !in wiki.value.korean
    ensures WikiLookup(wiki, patterns, koreanName) == EmptyTaxa
  {
  }

  /** The scientific name from the Korean summary wins. */
  lemma WikiKoreanScientificWins(client: WikiClient, patterns: Patterns, koreanName: string)
    requires koreanName != "" && koreanName in client.korean
    requires var ko := FirstMatch(patterns.scientific, client.korean[koreanName].summary); ko.Some? && ko.value != ""
    ensures WikiLookup(Some(client), patterns, koreanName).scientificName
            == FirstMatch(patterns.scientific, client.korean[koreanName].summary).value
  {
    var page := client.korean[koreanName];
    var ko := OrEmpty(FirstMatch(patterns.scientific, page.summary));
    assert EnglishPageInfo(client, patterns, page, ko).1 == ko;
  }

  /** The English summary is consulted for the scientific name only when the
      Korean one yields none and the linked English page exists. */
  lemma WikiEnglishScientificFallback(client: WikiClient, patterns: Patterns, koreanName: string)
    requires koreanName != "" && koreanName in client.korean
    requires OrEmpty(FirstMatch(patterns.scientific, client.korean[koreanName].summary)) == ""
    ensures var page := client.korean[koreanName];
            WikiLookup(Some(client), patterns, koreanName).scientificName
            == if page.englishLink.Some? && page.englishLink.value in client.english
               then OrEmpty(FirstMatch(patterns.englishScientific, client.english[page.englishLink.value]))
               else ""
  {
    var page := client.korean[koreanName];
    assert WikiLookup(Some(client), patterns, koreanName).scientificName == EnglishPageInfo(client, patterns, page, "").1;
  }

  /** The Korean page links an English page whose cleaned title is short
      enough to be taken as the English name. */
  predicate UsableEnglishTitle(client: WikiClient, page: KoreanPage)
  {
    && page.englishLink.Some? && page.englishLink.value in client.english
    && CleanEnglishTitle(page.englishLink.value) != "" && |CleanEnglishTitle(page.englishLink.value)| < 50
  }

  /** The common name is the cleaned English title when that is usable;
      otherwise it comes from the first acceptable Korean-summary match. */
  lemma WikiCommonNameSource(client: WikiClient, patterns: Patterns, koreanName: string)
    requires koreanName != "" && koreanName in client.korean
    ensures var page := client.korean[koreanName];
            var info := WikiLookup(Some(client), patterns, koreanName);
            && (info.commonName != "" ==>
                  || (page.englishLink.Some? && page.englishLink.value in client.english
                      && info.commonName == CleanEnglishTitle(page.englishLink.value) && |info.commonName| < 50)
                  || AcceptableEnglishName(info.commonName, info.scientificName))
            && (UsableEnglishTitle(client, page) ==> info.commonName == CleanEnglishTitle(page.englishLink.value))
            && (!UsableEnglishTitle(client, page) ==>
                  info.commonName == OrEmpty(FirstAccepted(patterns.englishName, page.summary, info.scientificName)))
  {
    var page := client.korean[koreanName];
    var info := WikiLookup(Some(client), patterns, koreanName);
    var english := EnglishPageInfo(client, patterns, page, OrEmpty(FirstMatch(patterns.scientific, page.summary)));
    if english.0 == "" {
      var ok := m => Accepts(m, english.1);
      var r := FirstIndexWhere(patterns.englishName, page.summary, ok);
      if r.Some? {
        assert ok(patterns.englishName[r.value](page.summary));
      }
    }
  }
}
