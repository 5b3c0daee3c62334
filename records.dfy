/** Species records and the lookup in the reference table (`국명` column). */
module Records {
  import opened Common

  /** The four taxonomy fields of a species record (absent is ""). */
  datatype Taxa = Taxa(commonName: string, scientificName: string, order: string, family: string)

  const EmptyTaxa := Taxa("", "", "", "")

  datatype Field = CommonName | ScientificName | Order | Family

  /** The order in which the resolver inspects and reports the fields. */
  const FieldOrder: seq<Field> := [CommonName, ScientificName, Order, Family]

  /** The Korean label the source tag uses for a field. */
  function FieldLabel(f: Field): string
  {
    match f
    case CommonName => "영명"
    case ScientificName => "학명"
    case Order => "목"
    case Family => "과"
  }

  function Labels(fields: seq<Field>): (r: seq<string>)
    ensures |r| == |fields|
    ensures forall i :: 0 <= i < |fields| ==> r[i] == FieldLabel(fields[i])
  {
    if fields == [] then [] else [FieldLabel(fields[0])] + Labels(fields[1..])
  }

  function GetField(t: Taxa, f: Field): string
  {
    match f
    case CommonName => t.commonName
    case ScientificName => t.scientificName
    case Order => t.order
    case Family => t.family
  }

  function SetField(t: Taxa, f: Field, v: string): (r: Taxa)
    ensures GetField(r, f) == v
    ensures forall g :: g != f ==> GetField(r, g) == GetField(t, g)
  {
    match f
    case CommonName => t.(commonName := v)
    case ScientificName => t.(scientificName := v)
    case Order => t.(order := v)
    case Family => t.(family := v)
  }

  /** Every field is filled. */
  predicate Complete(t: Taxa)
  {
    t.commonName != "" && t.scientificName != "" && t.order != "" && t.family != ""
  }

  /** The resolved record: the name, the taxonomy and where it came from. */
  datatype BirdInfo = BirdInfo(koreanName: string, taxa: Taxa, source: string)

  const Unclassified := "미분류"
  const UserInput := "사용자 입력"
  const NotAvailable := "N/A"
  const CsvSource := "CSV"

  // =====================================================================
  // Reference table lookup
  // =====================================================================

  /** A loaded reference table: the columns it has and one map per row.
      Cells hold strings; empty cells were filled with "" on loading. */
  datatype Table = Table(columns: set<string>, rows: seq<map<string, string>>)

  const KoreanNameColumn := "국명"

  /** `row.get(column, "")` */
  function Cell(t: Table, row: nat, column: string): string
    requires row < |t.rows|
  {
    if column in t.columns && column in t.rows[row] then t.rows[row][column] else ""
  }

  function RowTaxa(t: Table, row: nat): Taxa
    requires row < |t.rows|
  {
    Taxa(Cell(t, row, "영명"), Cell(t, row, "학명"), Cell(t, row, "목"), Cell(t, row, "과"))
  }

  /** The first row at or after `from` whose Korean name is `name`. */
  function FirstRowNamed(t: Table, name: string, from: nat): (r: Option<nat>)
    decreases |t.rows| - from
    ensures r.Some? ==> from <= r.value < |t.rows| && Cell(t, r.value, KoreanNameColumn) == name
                        && forall j :: from <= j < r.value ==> Cell(t, j, KoreanNameColumn) != name
    ensures r.None? ==> forall j :: from <= j < |t.rows| ==> Cell(t, j, KoreanNameColumn) != name
  {
    if from >= |t.rows| then None
    else if Cell(t, from, KoreanNameColumn) == name then Some(from)
    else FirstRowNamed(t, name, from + 1)
  }

  datatype CsvHit = CsvHit(koreanName: string, taxa: Taxa)

  /** `search_csv_by_korean_name(df, name)`: `None` for a missing table, a
      blank name, a table without the Korean-name column (the caught
      `KeyError`) or no matching row; otherwise the first matching row. */
  function SearchCsvByKoreanName(df: Option<Table>, name: string): (r: Option<CsvHit>)
    ensures r.Some? ==> r.value.koreanName == Strip(name)
  {
    if df.None? || Strip(name) == "" || KoreanNameColumn !in df.value.columns then None
    else
      match FirstRowNamed(df.value, Strip(name), 0)
      case None => None
      case Some(i) => Some(CsvHit(Cell(df.value, i, KoreanNameColumn), RowTaxa(df.value, i)))
  }

  /** The lookup hits exactly when there is a table with the Korean-name
      column, the stripped name is not blank and some row carries it; the
      hit is then the first such row. */
  lemma SearchCsvFindsFirstRow(df: Option<Table>, name: string)
    ensures var r := SearchCsvByKoreanName(df, name);
            && (r.Some? <==> && df.Some? && KoreanNameColumn in df.value.columns && Strip(name) != ""
                             && exists i :: 0 <= i < |df.value.rows| && Cell(df.value, i, KoreanNameColumn) == Strip(name))
            && (r.Some? ==> exists i :: && 0 <= i < |df.value.rows|
                                        && Cell(df.value, i, KoreanNameColumn) == Strip(name)
                                        && (forall j :: 0 <= j < i ==> Cell(df.value, j, KoreanNameColumn) != Strip(name))
                                        && r.value.taxa == RowTaxa(df.value, i))
  {
    if df.Some? && Strip(name) != "" && KoreanNameColumn in df.value.columns {
      var hit := FirstRowNamed(df.value, Strip(name), 0);
      if hit.Some? {
        assert Cell(df.value, hit.value, KoreanNameColumn) == Strip(name);
      }
    }
  }
}
