/**
 * `load_tabular`: picks a parser by the file name's extension, then
 * harmonises the parsed table to six fixed columns (`nom`, `cin`,
 * `universite`, `specialite`, `resultat`, `source`), taking each of the
 * first five from the first header, in a fixed list of aliases, that the
 * table has once headers are lower-cased and trimmed.
 */
module Tabular {
  import opened Wrappers
  import opened Text

  /** The file formats `load_tabular` recognises by extension. */
  datatype Format = Csv | Excel | Json | Unrecognised

  /** `s.endswith(suffix)`. */
  predicate EndsWith(s: string, suffix: string) {
    |suffix| <= |s| && s[|s| - |suffix|..] == suffix
  }

  /** `name.lower().endswith(ext)`. */
  predicate HasExtension(fileName: string, ext: string) {
    EndsWith(Lower(fileName), ext)
  }

  /** The parser `load_tabular` picks for a file name, tested on the lower-cased name in this order. */
  function FormatOf(fileName: string): (f: Format)
    ensures f == Csv ==> HasExtension(fileName, ".csv")
    ensures f == Excel ==> HasExtension(fileName, ".xlsx") || HasExtension(fileName, ".xls")
    ensures f == Json ==> HasExtension(fileName, ".json")
    ensures f == Unrecognised ==>
      !HasExtension(fileName, ".csv") && !HasExtension(fileName, ".xlsx")
      && !HasExtension(fileName, ".xls") && !HasExtension(fileName, ".json")
  {
    if HasExtension(fileName, ".csv") then Csv
    else if HasExtension(fileName, ".xlsx") || HasExtension(fileName, ".xls") then Excel
    else if HasExtension(fileName, ".json") then Json
    else Unrecognised
  }

  /** The extension test ignores case: a name and its lower-cased form select the same parser. */
  lemma FormatIgnoresCase(fileName: string)
    ensures FormatOf(Lower(fileName)) == FormatOf(fileName)
  {
    LowerIdempotent(fileName);
  }

  /**
   * A parsed table: its column headers and its rows of rendered cells. A
   * table is rectangular: every row has one cell per header.
   */
  datatype Frame = Frame(headers: seq<string>, rows: seq<seq<string>>)

  predicate Rectangular(f: Frame) {
    forall i :: 0 <= i < |f.rows| ==> |f.rows[i]| == |f.headers|
  }

  /** What the pandas reader for the file's format did: returned a table, or raised. */
  datatype ParseOutcome = Parsed(frame: Frame) | ParseError

  /**
   * One row of the harmonised table. A field is `None` when the table has no
   * column for it (the whole column is then `None`); `source` is the file name.
   */
  datatype Record = Record(
    nom: Option<string>, cin: Option<string>, universite: Option<string>,
    specialite: Option<string>, resultat: Option<string>, source: string)

  /**
   * What `load_tabular` produced: a harmonised table (empty when the
   * extension is not recognised or parsing failed), or the error pandas
   * raises, outside the `try`, when no column of the five was found and
   * every value of the frame under construction is a scalar.
   */
  datatype LoadOutcome = Loaded(records: seq<Record>) | Raised

  // ---------------------------------------------------------------------------
  // Header dictionary and first_match
  // ---------------------------------------------------------------------------

  /** The key of a header in the dictionary: `c.lower().strip()`. */
  function HeaderKey(h: string): string {
    Strip(Lower(h))
  }

  /** The keys of all headers, in column order. */
  function HeaderKeys(headers: seq<string>): (ks: seq<string>)
    ensures |ks| == |headers|
  {
    seq(|headers|, i requires 0 <= i < |headers| => HeaderKey(headers[i]))
  }

  /** Every key of `m` maps to a position of `keys` holding that key. */
  predicate IndexesKeys(m: map<string, nat>, keys: seq<string>) {
    forall k :: k in m ==> m[k] < |keys| && keys[m[k]] == k
  }

  /** Column `i` exists and its header, lower-cased and stripped, is `k`. */
  predicate HeaderColumn(headers: seq<string>, k: string, i: nat) {
    i < |headers| && HeaderKey(headers[i]) == k
  }

  /**
   * The dictionary `{key: column}` built left to right over the keys, so a
   * later column with the same key replaces an earlier one. Columns are
   * identified by their position.
   */
  function LastIndexMap(keys: seq<string>): (m: map<string, nat>)
    ensures IndexesKeys(m, keys)
  {
    if keys == [] then map[]
    else LastIndexMap(keys[..|keys| - 1])[keys[|keys| - 1] := |keys| - 1]
  }

  /** `cols = {c.lower().strip(): c for c in df.columns}`. */
  function HeaderMap(headers: seq<string>): (cols: map<string, nat>)
    ensures forall k :: k in cols ==> HeaderColumn(headers, k, cols[k])
  {
    LastIndexMap(HeaderKeys(headers))
  }

  /** Column `i` is the last one whose key is `k`. */
  predicate LastWithKey(keys: seq<string>, k: string, i: int) {
    0 <= i < |keys| && keys[i] == k && forall j :: i < j < |keys| ==> keys[j] != k
  }

  /**
   * The dictionary has a key exactly when some header has it, and maps it to
   * the last column with that key: the later header wins.
   */
  lemma {:induction false} LastIndexMapSpec(keys: seq<string>)
    ensures forall k :: k in LastIndexMap(keys) <==> k in keys
    ensures forall k :: k in LastIndexMap(keys) ==> LastWithKey(keys, k, LastIndexMap(keys)[k])
    decreases |keys|
  {
    if keys != [] {
      var n := |keys|;
      var init := keys[..n - 1];
      LastIndexMapSpec(init);
      assert keys == init + [keys[n - 1]];
      forall k | k in LastIndexMap(keys)
        ensures LastWithKey(keys, k, LastIndexMap(keys)[k])
      {
        if k != keys[n - 1] {
          var i := LastIndexMap(init)[k];
          assert LastWithKey(init, k, i);
        }
      }
    }
  }

  /**
   * `first_match`: the column of the first alias, in list order, that is a
   * key of the dictionary, or `None`.
   */
  function FirstMatch(cols: map<string, nat>, cands: seq<string>): (r: Option<nat>)
    ensures r.None? ==> forall i :: 0 <= i < |cands| ==> cands[i] !in cols
  {
    if cands == [] then None
    else if cands[0] in cols then Some(cols[cands[0]])
    else FirstMatch(cols, cands[1..])
  }

  /** Alias `i` is the first of `cands` that is a key of `cols`. */
  predicate FirstPresent(cols: map<string, nat>, cands: seq<string>, i: int) {
    0 <= i < |cands| && cands[i] in cols && forall j :: 0 <= j < i ==> cands[j] !in cols
  }

  /**
   * `first_match` returns `None` exactly when no alias is a key, and
   * otherwise the column of the first alias that is.
   */
  lemma {:induction false} FirstMatchSpec(cols: map<string, nat>, cands: seq<string>)
    ensures FirstMatch(cols, cands).None? <==> forall c :: c in cands ==> c !in cols
    ensures FirstMatch(cols, cands).Some? ==>
      exists i :: FirstPresent(cols, cands, i) && FirstMatch(cols, cands).value == cols[cands[i]]
    decreases |cands|
  {
    if cands != [] && cands[0] !in cols {
      FirstMatchSpec(cols, cands[1..]);
      assert forall c :: c in cands ==> c == cands[0] || c in cands[1..];
      if FirstMatch(cols, cands[1..]).Some? {
        var i :| FirstPresent(cols, cands[1..], i) && FirstMatch(cols, cands[1..]).value == cols[cands[1..][i]];
        assert FirstPresent(cols, cands, i + 1);
      }
    } else if cands != [] {
      assert FirstPresent(cols, cands, 0);
    }
  }

  /** The aliases of each of the five fields, in priority order. */
  const NomAliases: seq<string> := ["nom", "name", "full_name", "candidate", "candidat"]
  const CinAliases: seq<string> := ["cin", "id", "numero_cin", "cnie"]
  const UniversiteAliases: seq<string> := ["universite", "université", "university", "etablissement", "établissement"]
  const SpecialiteAliases: seq<string> := ["specialite", "spécialité", "specialty", "discipline"]
  const ResultatAliases: seq<string> := ["resultat", "résultat", "status", "etat", "issue"]

  /** The columns chosen for the five fields, in field order. */
  function ChosenColumns(headers: seq<string>): seq<Option<nat>> {
    var cols := HeaderMap(headers);
    [FirstMatch(cols, NomAliases), FirstMatch(cols, CinAliases), FirstMatch(cols, UniversiteAliases),
     FirstMatch(cols, SpecialiteAliases), FirstMatch(cols, ResultatAliases)]
  }

  /** A column `first_match` finds in the header dictionary is a column of the table. */
  lemma {:induction false} FirstMatchInRange(headers: seq<string>, cands: seq<string>)
    ensures FirstMatch(HeaderMap(headers), cands).Some? ==> FirstMatch(HeaderMap(headers), cands).value < |headers|
    decreases |cands|
  {
    var cols := HeaderMap(headers);
    if cands != [] && cands[0] in cols {
      assert HeaderColumn(headers, cands[0], cols[cands[0]]);
    } else if cands != [] {
      FirstMatchInRange(headers, cands[1..]);
    }
  }

  /** Every chosen column is a column of the table. */
  lemma ChosenColumnsInRange(headers: seq<string>)
    ensures forall c :: c in ChosenColumns(headers) && c.Some? ==> c.value < |headers|
  {
    FirstMatchInRange(headers, NomAliases);
    FirstMatchInRange(headers, CinAliases);
    FirstMatchInRange(headers, UniversiteAliases);
    FirstMatchInRange(headers, SpecialiteAliases);
    FirstMatchInRange(headers, ResultatAliases);
  }

  /** The cell of a row in a chosen column, or `None` when no column was chosen. */
  function Cell(row: seq<string>, col: Option<nat>): Option<string> {
    if col.Some? && col.value < |row| then Some(row[col.value]) else None
  }

  /** The harmonised record of one row. */
  function Harmonise(row: seq<string>, chosen: seq<Option<nat>>, fileName: string): Record
    requires |chosen| == 5
  {
    Record(Cell(row, chosen[0]), Cell(row, chosen[1]), Cell(row, chosen[2]),
           Cell(row, chosen[3]), Cell(row, chosen[4]), fileName)
  }

  /**
   * The part of `load_tabular` after a successful parse: a table with none of
   * the five fields raises; otherwise one harmonised record per row, each with
   * the file name as its source.
   */
  function HarmoniseFrame(fileName: string, frame: Frame): (out: LoadOutcome)
    ensures out.Raised? <==> forall c :: c in ChosenColumns(frame.headers) ==> c.None?
    ensures out.Loaded? ==> |out.records| == |frame.rows|
    ensures out.Loaded? ==> forall r :: r in out.records ==> r.source == fileName
  {
    var chosen := ChosenColumns(frame.headers);
    if forall c :: c in chosen ==> c.None? then Raised
    else Loaded(seq(|frame.rows|, i requires 0 <= i < |frame.rows| => Harmonise(frame.rows[i], chosen, fileName)))
  }

  /**
   * `load_tabular`: an unrecognised extension or a parse failure gives an
   * empty table; a table with none of the five fields raises; otherwise one
   * record per row.
   */
  function LoadTabular(fileName: string, parsed: ParseOutcome): (out: LoadOutcome)
    requires parsed.Parsed? ==> Rectangular(parsed.frame)
    ensures FormatOf(fileName) == Unrecognised || parsed.ParseError? ==> out == Loaded([])
    ensures out.Raised? <==> (FormatOf(fileName) != Unrecognised && parsed.Parsed?
      && forall c :: c in ChosenColumns(parsed.frame.headers) ==> c.None?)
    ensures out.Loaded? ==> forall r :: r in out.records ==> r.source == fileName
    ensures out.Loaded? && FormatOf(fileName) != Unrecognised && parsed.Parsed? ==>
      |out.records| == |parsed.frame.rows|
  {
    if FormatOf(fileName) == Unrecognised then Loaded([])
    else match parsed
      case ParseError => Loaded([])
      case Parsed(frame) => HarmoniseFrame(fileName, frame)
  }

  /**
   * Column choice: the column `first_match` picks for a field is the last
   * column whose key is the first alias of the field present among the keys;
   * there is none exactly when no alias is present.
   */
  lemma ColumnChoice(keys: seq<string>, aliases: seq<string>)
    ensures var m := FirstMatch(LastIndexMap(keys), aliases);
      (m.None? <==> forall a :: a in aliases ==> a !in keys) &&
      (m.Some? ==> exists k :: FirstPresent(LastIndexMap(keys), aliases, k) && LastWithKey(keys, aliases[k], m.value))
  {
    var cols := LastIndexMap(keys);
    LastIndexMapSpec(keys);
    FirstMatchSpec(cols, aliases);
    var m := FirstMatch(cols, aliases);
    if m.Some? {
      var k :| FirstPresent(cols, aliases, k) && m.value == cols[aliases[k]];
      assert LastWithKey(keys, aliases[k], m.value);
    }
  }

  /**
   * In a loaded table, record `i` holds, in each field, the cell of row `i`
   * in the column chosen for that field (`None` when there is none), and the
   * file name as its source.
   */
  lemma LoadedRecord(fileName: string, frame: Frame, i: nat)
    requires Rectangular(frame) && FormatOf(fileName) != Unrecognised
    requires LoadTabular(fileName, Parsed(frame)).Loaded? && i < |frame.rows|
    ensures var r := LoadTabular(fileName, Parsed(frame)).records[i];
      var cols := HeaderMap(frame.headers);
      var row := frame.rows[i];
      r.nom == Cell(row, FirstMatch(cols, NomAliases)) && r.cin == Cell(row, FirstMatch(cols, CinAliases))
      && r.universite == Cell(row, FirstMatch(cols, UniversiteAliases))
      && r.specialite == Cell(row, FirstMatch(cols, SpecialiteAliases))
      && r.resultat == Cell(row, FirstMatch(cols, ResultatAliases)) && r.source == fileName
  {
    var chosen := ChosenColumns(frame.headers);
    assert LoadTabular(fileName, Parsed(frame)).records[i] == Harmonise(frame.rows[i], chosen, fileName);
  }
}
