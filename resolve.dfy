/** Resolution of a Korean name: the reference table first, the
    encyclopedia for the gaps, "N/A" for what is still missing. */
module Resolve {
  import opened Common
  import opened Records
  import opened Wiki

  /** Field `f` is empty in `base` and `patch` has a value for it. */
  predicate Fills(base: Taxa, patch: Taxa, f: Field)
  {
    GetField(base, f) == "" && GetField(patch, f) != ""
  }

  /** The fields empty in `base` that `patch` fills, in the order 영명, 학명, 목, 과. */
  function FilledFields(base: Taxa, patch: Taxa): seq<Field>
  {
    (if Fills(base, patch, CommonName) then [CommonName] else [])
    + (if Fills(base, patch, ScientificName) then [ScientificName] else [])
    + (if Fills(base, patch, Order) then [Order] else [])
    + (if Fills(base, patch, Family) then [Family] else [])
  }

  /** Each field of `base`, or of `patch` where `base` has none. */
  function FillGaps(base: Taxa, patch: Taxa): Taxa
  {
    Taxa(if base.commonName != "" then base.commonName else patch.commonName,
         if base.scientificName != "" then base.scientificName else patch.scientificName,
         if base.order != "" then base.order else patch.order,
         if base.family != "" then base.family else patch.family)
  }

  function OrNotAvailable(v: string): string
  {
    if v == "" then NotAvailable else v
  }

  function WithDefaults(t: Taxa): Taxa
  {
    Taxa(OrNotAvailable(t.commonName), OrNotAvailable(t.scientificName), OrNotAvailable(t.order), OrNotAvailable(t.family))
  }

  function SourceTag(csvHit: bool, filled: seq<Field>): string
  {
    if filled == [] then (if csvHit then CsvSource else UserInput)
    else (if csvHit then "CSV+Wiki(" else "Wiki(") + Join(", ", Labels(filled)) + ")"
  }

  /** The record built from the reference-table hit and the encyclopedia
      answer `wikiInfo`, which is consulted only when the hit is missing or
      has an empty field. */
  function Merge(koreanName: string, hit: Option<CsvHit>, wikiInfo: Taxa): BirdInfo
  {
    var base := if hit.Some? then hit.value.taxa else EmptyTaxa;
    var patch := if hit.None? || !Complete(base) then wikiInfo else EmptyTaxa;
    BirdInfo(if hit.Some? then hit.value.koreanName else koreanName,
             WithDefaults(FillGaps(base, patch)),
             SourceTag(hit.Some?, FilledFields(base, patch)))
  }

  /** What `resolve_bird_info(korean_name, csv_df, wiki)` returns. */
  function ResolveSpec(koreanName: string, csv: Option<Table>, wiki: Option<WikiClient>, patterns: Patterns): BirdInfo
  {
    if koreanName == Unclassified then BirdInfo(koreanName, EmptyTaxa, UserInput)
    else Merge(koreanName, SearchCsvByKoreanName(csv, koreanName), WikiLookup(wiki, patterns, koreanName))
  }

  /** name_check.py:244-259: copies into `taxa` the encyclopedia values for
      its empty fields and lists those fields in order. */
  method SupplementFromWiki(taxa: Taxa, wikiInfo: Taxa) returns (merged: Taxa, updated: seq<Field>)
    ensures merged == FillGaps(taxa, wikiInfo)
    ensures updated == FilledFields(taxa, wikiInfo)
  {
    merged, updated := taxa, [];
    ghost var f1 := if Fills(taxa, wikiInfo, CommonName) then [CommonName] else [];
    ghost var f2 := if Fills(taxa, wikiInfo, ScientificName) then [ScientificName] else [];
    ghost var f3 := if Fills(taxa, wikiInfo, Order) then [Order] else [];
    ghost var f4 := if Fills(taxa, wikiInfo, Family) then [Family] else [];
    if merged.commonName == "" && wikiInfo.commonName != "" {
      merged := merged.(commonName := wikiInfo.commonName);
      updated := updated + [CommonName];
    }
    assert updated == f1;
    if merged.scientificName == "" && wikiInfo.scientificName != "" {
      merged := merged.(scientificName := wikiInfo.scientificName);
      updated := updated + [ScientificName];
    }
    assert updated == f1 + f2;
    if merged.order == "" && wikiInfo.order != "" {
      merged := merged.(order := wikiInfo.order);
      updated := updated + [Order];
    }
    assert updated == f1 + f2 + f3;
    if merged.family == "" && wikiInfo.family != "" {
      merged := merged.(family := wikiInfo.family);
      updated := updated + [Family];
    }
    assert updated == f1 + f2 + f3 + f4;
  }

  /** name_check.py:280-282: every empty field becomes "N/A". */
  method FillNotAvailable(taxa: Taxa) returns (r: Taxa)
    ensures r == WithDefaults(taxa)
  {
    r := taxa;
    for k := 0 to |FieldOrder|
      invariant r.commonName == if k > 0 then OrNotAvailable(taxa.commonName) else taxa.commonName
      invariant r.scientificName == if k > 1 then OrNotAvailable(taxa.scientificName) else taxa.scientificName
      invariant r.order == if k > 2 then OrNotAvailable(taxa.order) else taxa.order
      invariant r.family == if k > 3 then OrNotAvailable(taxa.family) else taxa.family
    {
      var f := FieldOrder[k];
      if GetField(r, f) == "" {
        r := SetField(r, f, NotAvailable);
      }
    }
  }

  /** name_check.py:226-230: the empty fields, in order. */
  method MissingFields(taxa: Taxa) returns (missing: seq<Field>)
    ensures forall f :: f in missing <==> GetField(taxa, f) == ""
    ensures missing == [] <==> Complete(taxa)
  {
    missing := [];
    for k := 0 to |FieldOrder|
      invariant forall f :: f in missing <==> f in FieldOrder[..k] && GetField(taxa, f) == ""
    {
      if GetField(taxa, FieldOrder[k]) == "" {
        missing := missing + [FieldOrder[k]];
      }
    }
    assert FieldOrder[..4] == FieldOrder;
    forall f: Field ensures f in FieldOrder {
      match f
      case CommonName => assert FieldOrder[0] == f;
      case ScientificName => assert FieldOrder[1] == f;
      case Order => assert FieldOrder[2] == f;
      case Family => assert FieldOrder[3] == f;
    }
    assert CommonName in missing <==> taxa.commonName == "";
    assert ScientificName in missing <==> taxa.scientificName == "";
    assert Order in missing <==> taxa.order == "";
    assert Family in missing <==> taxa.family == "";
    if missing != [] {
      assert missing[0] in missing;
    }
  }

  /** name_check.py:241-266: the encyclopedia answer fills the gaps of
      `info` and, when it filled any, the source names them. */
  method ApplyWikiInfo(info: BirdInfo, wikiInfo: Taxa) returns (r: BirdInfo)
    ensures r.koreanName == info.koreanName
    ensures r.taxa == FillGaps(info.taxa, wikiInfo)
    ensures var filled := FilledFields(info.taxa, wikiInfo);
            r.source == if filled == [] then info.source
                        else (if info.source == CsvSource then "CSV+Wiki(" else "Wiki(") + Join(", ", Labels(filled)) + ")"
  {
    r := info;
    if wikiInfo != EmptyTaxa {
      var taxa, updated := SupplementFromWiki(info.taxa, wikiInfo);
      r := r.(taxa := taxa);
      if updated != [] {
        if r.source == CsvSource {
          r := r.(source := "CSV+Wiki(" + Join(", ", Labels(updated)) + ")");
        } else {
          r := r.(source := "Wiki(" + Join(", ", Labels(updated)) + ")");
        }
      }
    } else {
      assert FillGaps(info.taxa, wikiInfo) == info.taxa && FilledFields(info.taxa, wikiInfo) == [];
    }
  }

  /** `resolve_bird_info(korean_name, csv_df, wiki)` */
  method ResolveBirdInfo(koreanName: string, csv: Option<Table>, wiki: Option<WikiClient>, patterns: Patterns)
    returns (result: BirdInfo)
    ensures result == ResolveSpec(koreanName, csv, wiki, patterns)
  {
    if koreanName == Unclassified {
      return BirdInfo(koreanName, EmptyTaxa, UserInput);
    }
    var csvInfo := SearchCsvByKoreanName(csv, koreanName);
    result := MergeSources(koreanName, csvInfo, wiki, patterns);
  }

  /** name_check.py:205-282 after the table lookup: the hit, then the
      encyclopedia for what is missing, then "N/A" for the rest. */
  method MergeSources(koreanName: string, csvInfo: Option<CsvHit>, wiki: Option<WikiClient>, patterns: Patterns)
    returns (result: BirdInfo)
    ensures result == Merge(koreanName, csvInfo, WikiLookup(wiki, patterns, koreanName))
  {
    result := BirdInfo(koreanName, EmptyTaxa, UserInput);
    if csvInfo.Some? {
      result := BirdInfo(csvInfo.value.koreanName, csvInfo.value.taxa, CsvSource);
    }
    ghost var base := result.taxa;
    assert result.source == CsvSource <==> csvInfo.Some?;
    var missing := MissingFields(result.taxa);
    ghost var patch := EmptyTaxa;
    if missing != [] || csvInfo.None? {
      var wikiInfo := GetInfoFromWikipedia(wiki, patterns, koreanName);
      patch := wikiInfo;
      result := ApplyWikiInfo(result, wikiInfo);
    } else {
      assert FillGaps(base, patch) == base && FilledFields(base, patch) == [];
    }
    assert result.taxa == FillGaps(base, patch);
    assert result.source == SourceTag(csvInfo.Some?, FilledFields(base, patch));
    var final := FillNotAvailable(result.taxa);
    result := result.(taxa := final);
  }

  // ---------------------------------------------------------------------
  // What the resolution promises
  // ---------------------------------------------------------------------

  /** A field the table fills keeps the table's value; an empty one takes
      the encyclopedia's. */
  lemma FillGapsField(base: Taxa, patch: Taxa, f: Field)
    ensures GetField(FillGaps(base, patch), f)
            == if GetField(base, f) != "" then GetField(base, f) else GetField(patch, f)
  {
  }

  /** The source tag lists exactly the fields the encyclopedia filled. */
  lemma FilledFieldsMeaning(base: Taxa, patch: Taxa, f: Field)
    ensures f in FilledFields(base, patch) <==> Fills(base, patch, f)
  {
    var e: seq<Field> := [];
    var c1 := if Fills(base, patch, CommonName) then [CommonName] else e;
    var c2 := if Fills(base, patch, ScientificName) then [ScientificName] else e;
    var c3 := if Fills(base, patch, Order) then [Order] else e;
    var c4 := if Fills(base, patch, Family) then [Family] else e;
    assert FilledFields(base, patch) == c1 + c2 + c3 + c4;
    InFourParts(f, c1, c2, c3, c4);
  }

  lemma InFourParts(f: Field, c1: seq<Field>, c2: seq<Field>, c3: seq<Field>, c4: seq<Field>)
    ensures f in c1 + c2 + c3 + c4 <==> f in c1 || f in c2 || f in c3 || f in c4
  {
    assert c1 + c2 + c3 + c4 == c1 + (c2 + (c3 + c4));
  }

  /** "N/A" exactly replaces the empty fields. */
  lemma WithDefaultsField(t: Taxa, f: Field)
    ensures GetField(WithDefaults(t), f) == if GetField(t, f) == "" then NotAvailable else GetField(t, f)
    ensures GetField(WithDefaults(t), f) != ""
  {
  }

  /** Apart from "미분류", no field of a resolved record is empty. */
  lemma ResolveFillsEveryField(koreanName: string, csv: Option<Table>, wiki: Option<WikiClient>, patterns: Patterns)
    requires koreanName != Unclassified
    ensures Complete(ResolveSpec(koreanName, csv, wiki, patterns).taxa)
  {
    var r := ResolveSpec(koreanName, csv, wiki, patterns);
    var hit := SearchCsvByKoreanName(csv, koreanName);
    var base := if hit.Some? then hit.value.taxa else EmptyTaxa;
    var patch := if hit.None? || !Complete(base) then WikiLookup(wiki, patterns, koreanName) else EmptyTaxa;
    assert r.taxa == WithDefaults(FillGaps(base, patch));
  }

  /** "미분류" is answered at once, with every field empty. */
  lemma ResolveUnclassified(csv: Option<Table>, wiki: Option<WikiClient>, patterns: Patterns)
    ensures ResolveSpec(Unclassified, csv, wiki, patterns) == BirdInfo(Unclassified, EmptyTaxa, UserInput)
  {
  }

  /** What the table gives is never overwritten by the encyclopedia. */
  lemma MergeKeepsTableValues(koreanName: string, hit: CsvHit, wikiInfo: Taxa, f: Field)
    requires GetField(hit.taxa, f) != ""
    ensures GetField(Merge(koreanName, Some(hit), wikiInfo).taxa, f) == GetField(hit.taxa, f)
  {
    var patch := if !Complete(hit.taxa) then wikiInfo else EmptyTaxa;
    FillGapsField(hit.taxa, patch, f);
    WithDefaultsField(FillGaps(hit.taxa, patch), f);
  }

  /** A complete table row makes the encyclopedia irrelevant, and the
      source is then "CSV". */
  lemma MergeCompleteRow(koreanName: string, hit: CsvHit, wikiInfo: Taxa)
    requires Complete(hit.taxa)
    ensures Merge(koreanName, Some(hit), wikiInfo) == BirdInfo(hit.koreanName, hit.taxa, CsvSource)
  {
  }

  /** Without a table hit and without an encyclopedia answer the source is
      "사용자 입력" and every field "N/A". */
  lemma MergeNothingFound(koreanName: string)
    ensures Merge(koreanName, None, EmptyTaxa)
            == BirdInfo(koreanName, Taxa(NotAvailable, NotAvailable, NotAvailable, NotAvailable), UserInput)
  {
  }

  /** The source tag: "CSV" or "사용자 입력" when nothing was filled in,
      otherwise a prefix naming where the record started and the labels of
      the filled fields in the order 영명, 학명, 목, 과. */
  lemma MergeSourceTag(koreanName: string, hit: Option<CsvHit>, wikiInfo: Taxa)
    ensures var base := if hit.Some? then hit.value.taxa else EmptyTaxa;
            var patch := if hit.None? || !Complete(base) then wikiInfo else EmptyTaxa;
            var filled := FilledFields(base, patch);
            var source := Merge(koreanName, hit, wikiInfo).source;
            && (filled == [] ==> source == (if hit.Some? then CsvSource else UserInput))
            && (filled != [] && hit.Some? ==> source == "CSV+Wiki(" + Join(", ", Labels(filled)) + ")")
            && (filled != [] && hit.None? ==> source == "Wiki(" + Join(", ", Labels(filled)) + ")")
  {
  }

  /** A table row with only the order and family missing, both found in
      the encyclopedia, is tagged "CSV+Wiki(목, 과)". */
  lemma MergeOrderFamilyExample(koreanName: string, hit: CsvHit, wikiInfo: Taxa)
    requires hit.taxa.commonName != "" && hit.taxa.scientificName != ""
    requires hit.taxa.order == "" && hit.taxa.family == ""
    requires wikiInfo.order != "" && wikiInfo.family != ""
    ensures Merge(koreanName, Some(hit), wikiInfo).source == "CSV+Wiki(목, 과)"
    ensures Merge(koreanName, Some(hit), wikiInfo).taxa
            == Taxa(hit.taxa.commonName, hit.taxa.scientificName, wikiInfo.order, wikiInfo.family)
  {
    OrderFamilyFilled(hit.taxa, wikiInfo);
    OrderFamilyTag();
  }

  lemma OrderFamilyFilled(base: Taxa, patch: Taxa)
    requires base.commonName != "" && base.scientificName != "" && base.order == "" && base.family == ""
    requires patch.order != "" && patch.family != ""
    ensures FilledFields(base, patch) == [Order, Family]
  {
    assert !Fills(base, patch, CommonName) && !Fills(base, patch, ScientificName);
    assert Fills(base, patch, Order) && Fills(base, patch, Family);
    assert FilledFields(base, patch) == [] + [] + [Order] + [Family];
  }

  lemma OrderFamilyTag()
    ensures "CSV+Wiki(" + Join(", ", Labels([Order, Family])) + ")" == "CSV+Wiki(목, 과)"
  {
    var labels := Labels([Order, Family]);
    assert labels == ["목", "과"];
    assert labels[1..] == ["과"];
    assert Join(", ", labels) == "목" + ", " + "과";
  }
}
