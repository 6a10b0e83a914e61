/** The taxa table handed to the community simulation: one row per model
    file found in the GEM folder, joined with the abundance table by
    identifier, with defaults for taxa the abundance table does not know. */
module TaxaTable {

  import opened Wrappers
  import opened Strings

  /** One row of the abundance file, keyed by column name. */
  type Record = map<string, string>

  datatype Abundance = Abundance(abundance: string, taxonomy: string)

  /** Reading a column the file does not have raises `KeyError`. */
  datatype TaxaError = MissingColumn(column: string)

  predicate HasColumns(row: Record)
  {
    "id" in row && "abundance" in row && "taxonomy" in row
  }

  /** One entry of the comprehension: the key is read first, then the
      abundance and the taxonomy. */
  function Entry(row: Record): (r: Result<(string, Abundance), TaxaError>)
    ensures r.Success? <==> HasColumns(row)
    ensures r.Success? ==> r.value == (row["id"], Abundance(row["abundance"], row["taxonomy"]))
    ensures r.Failure? ==> r.error.column in {"id", "abundance", "taxonomy"} && r.error.column !in row
  {
    if "id" !in row then Failure(MissingColumn("id"))
    else if "abundance" !in row then Failure(MissingColumn("abundance"))
    else if "taxonomy" !in row then Failure(MissingColumn("taxonomy"))
    else Success((row["id"], Abundance(row["abundance"], row["taxonomy"])))
  }

  /** The dictionary comprehension, row by row into `acc`. */
  function Collect(acc: map<string, Abundance>, rows: seq<Record>): Result<map<string, Abundance>, TaxaError>
    decreases |rows|
  {
    if rows == [] then Success(acc)
    else
      match Entry(rows[0])
      case Failure(e) => Failure(e)
      case Success((id, v)) => Collect(acc[id := v], rows[1..])
  }

  /** Lines 30-33 of the kubeflow copy (lines 24-27 of the other), with
      the file's rows in memory. */
  function ReadAbundanceFile(rows: seq<Record>): Result<map<string, Abundance>, TaxaError>
  {
    Collect(map[], rows)
  }

  /** Reading fails exactly when some row lacks a column, and then with the
      first missing column of the first such row. */
  lemma {:induction false} CollectFails(acc: map<string, Abundance>, rows: seq<Record>)
    ensures Collect(acc, rows).Failure? <==> exists i :: 0 <= i < |rows| && !HasColumns(rows[i])
    ensures Collect(acc, rows).Failure? ==>
      exists i :: 0 <= i < |rows| && !HasColumns(rows[i]) && Entry(rows[i]) == Failure(Collect(acc, rows).error)
                  && forall j :: 0 <= j < i ==> HasColumns(rows[j])
    decreases |rows|
  {
    if rows != [] {
      var e := Entry(rows[0]);
      if e.Success? {
        CollectFails(acc[e.value.0 := e.value.1], rows[1..]);
        assert forall i :: 1 <= i < |rows| ==> rows[i] == rows[1..][i - 1];
        if Collect(acc, rows).Failure? {
          var k :| 0 <= k < |rows[1..]| && !HasColumns(rows[1..][k]) && Entry(rows[1..][k]) == Failure(Collect(acc, rows).error)
                   && forall j :: 0 <= j < k ==> HasColumns(rows[1..][j]);
          assert !HasColumns(rows[k + 1]) && Entry(rows[k + 1]) == Failure(Collect(acc, rows).error);
          assert forall j :: 0 <= j < k + 1 ==> HasColumns(rows[j]) by {
            forall j | 0 <= j < k + 1
              ensures HasColumns(rows[j])
            {
              if j > 0 {
                assert rows[j] == rows[1..][j - 1];
              }
            }
          }
        }
      } else {
        assert !HasColumns(rows[0]);
      }
    }
  }

  /** The keys read are the ones already there and the ids of the rows. */
  lemma {:induction false} CollectKeys(acc: map<string, Abundance>, rows: seq<Record>, id: string)
    requires Collect(acc, rows).Success?
    ensures (id in Collect(acc, rows).value) <==>
      (id in acc || exists i :: 0 <= i < |rows| && "id" in rows[i] && rows[i]["id"] == id)
    decreases |rows|
  {
    if rows != [] {
      var e := Entry(rows[0]);
      CollectKeys(acc[e.value.0 := e.value.1], rows[1..], id);
      assert forall i :: 1 <= i < |rows| ==> rows[i] == rows[1..][i - 1];
      if exists i :: 0 <= i < |rows[1..]| && "id" in rows[1..][i] && rows[1..][i]["id"] == id {
        var i :| 0 <= i < |rows[1..]| && "id" in rows[1..][i] && rows[1..][i]["id"] == id;
        assert rows[i + 1] == rows[1..][i];
      }
    }
  }

  /** The row that gives an id its value is the last row with that id. */
  lemma {:induction false} CollectLastWins(acc: map<string, Abundance>, rows: seq<Record>, i: nat)
    requires Collect(acc, rows).Success?
    requires i < |rows|
    requires HasColumns(rows[i])
    requires forall j :: i < j < |rows| ==> "id" in rows[j] && rows[j]["id"] != rows[i]["id"]
    ensures rows[i]["id"] in Collect(acc, rows).value
    ensures Collect(acc, rows).value[rows[i]["id"]] == Abundance(rows[i]["abundance"], rows[i]["taxonomy"])
    decreases |rows|
  {
    var e := Entry(rows[0]);
    var acc' := acc[e.value.0 := e.value.1];
    if i == 0 {
      CollectUntouched(acc', rows[1..], rows[0]["id"]);
    } else {
      assert forall j :: i - 1 < j < |rows[1..]| ==> rows[1..][j] == rows[j + 1];
      CollectLastWins(acc', rows[1..], i - 1);
    }
  }

  /** An id no row mentions keeps the value it had. */
  lemma {:induction false} CollectUntouched(acc: map<string, Abundance>, rows: seq<Record>, id: string)
    requires Collect(acc, rows).Success?
    requires forall j :: 0 <= j < |rows| ==> "id" in rows[j] && rows[j]["id"] != id
    ensures (id in Collect(acc, rows).value) <==> id in acc
    ensures id in acc ==> Collect(acc, rows).value[id] == acc[id]
    decreases |rows|
  {
    if rows != [] {
      var e := Entry(rows[0]);
      assert forall j :: 0 <= j < |rows[1..]| ==> rows[1..][j] == rows[j + 1];
      CollectUntouched(acc[e.value.0 := e.value.1], rows[1..], id);
    }
  }

  /** Lines 30-33: the abundance data fails on a missing column, and
      otherwise maps every id of the file, and only those, to the
      abundance and taxonomy of its last row. */
  lemma AbundanceOfRows(rows: seq<Record>, id: string)
    ensures ReadAbundanceFile(rows).Failure? <==> exists i :: 0 <= i < |rows| && !HasColumns(rows[i])
    ensures ReadAbundanceFile(rows).Success? ==>
      && ((id in ReadAbundanceFile(rows).value) <==> exists i :: 0 <= i < |rows| && rows[i]["id"] == id)
      && (forall i :: 0 <= i < |rows| && rows[i]["id"] == id && (forall j :: i < j < |rows| ==> rows[j]["id"] != id) ==>
            ReadAbundanceFile(rows).value[id] == Abundance(rows[i]["abundance"], rows[i]["taxonomy"]))
  {
    CollectFails(map[], rows);
    if ReadAbundanceFile(rows).Success? {
      CollectKeys(map[], rows, id);
      forall i | 0 <= i < |rows| && rows[i]["id"] == id && (forall j :: i < j < |rows| ==> rows[j]["id"] != id)
        ensures ReadAbundanceFile(rows).value[id] == Abundance(rows[i]["abundance"], rows[i]["taxonomy"])
      {
        CollectLastWins(map[], rows, i);
      }
    }
  }

  // The GEM folder.

  /** `PurePath.suffix` of a file name: from the last dot on, unless the
      dot starts or ends the name. */
  function Suffix(name: string): (r: string)
    ensures r == [] || (r[0] == '.' && '.' !in r[1..] && |r| >= 2 && |r| < |name|)
  {
    match RSplitOnce(name, '.')
    case Some((l, t)) => if l != [] && t != [] then "." + t else ""
    case None => ""
  }

  /** `PurePath.stem`: the name without its suffix. */
  function Stem(name: string): string
  {
    match RSplitOnce(name, '.')
    case Some((l, t)) => if l != [] && t != [] then l else name
    case None => name
  }

  /** The stem and the suffix make up the name again. */
  lemma StemSuffix(name: string)
    ensures Stem(name) + Suffix(name) == name
    ensures Suffix(name) != [] ==> Stem(name) != []
  {
    match RSplitOnce(name, '.')
    case Some((l, t)) =>
      if l != [] && t != [] {
        assert l + "." + t == l + ['.'] + t;
      }
    case None =>
  }

  predicate IsModelFile(name: string)
  {
    Suffix(name) == ".xml" || Suffix(name) == ".json"
  }

  /** The (stem, suffix) pairs of the model files, in listing order. */
  function ModelFiles(names: seq<string>): seq<(string, string)>
    decreases |names|
  {
    if names == [] then []
    else
      var rest := ModelFiles(names[..|names| - 1]);
      var n := names[|names| - 1];
      if IsModelFile(n) then rest + [(Stem(n), Suffix(n))] else rest
  }

  /** Lines 36-44, with the folder listing in memory: the files whose
      suffix is `.xml` or `.json`, as (stem, suffix) pairs. */
  method GetIdsAndExtensionsFromGemDirectory(names: seq<string>) returns (idExtensions: seq<(string, string)>)
    ensures idExtensions == ModelFiles(names)
  {
    idExtensions := [];
    for i := 0 to |names|
      invariant idExtensions == ModelFiles(names[..i])
    {
      assert names[..i + 1][..i] == names[..i];
      if Suffix(names[i]) in [".xml", ".json"] {
        idExtensions := idExtensions + [(Stem(names[i]), Suffix(names[i]))];
      }
    }
    assert names[..|names|] == names;
  }

  /** Lines 41-43: every pair comes from a model file of the listing and
      names it again; every model file of the listing gives a pair. */
  lemma {:induction false} ModelFilesListed(names: seq<string>, p: (string, string))
    ensures (p in ModelFiles(names)) <==>
      exists n :: n in names && IsModelFile(n) && p == (Stem(n), Suffix(n))
    ensures p in ModelFiles(names) ==> (p.1 == ".xml" || p.1 == ".json") && p.0 + p.1 in names
    ensures |ModelFiles(names)| <= |names|
    decreases |names|
  {
    if names != [] {
      var init := names[..|names| - 1];
      var n := names[|names| - 1];
      ModelFilesListed(init, p);
      assert names == init + [n];
      StemSuffix(n);
      if p in ModelFiles(init) {
        var m :| m in init && IsModelFile(m) && p == (Stem(m), Suffix(m));
        StemSuffix(m);
        assert m in names;
      }
    }
  }

  // The output table.

  /** `str(Path(dir) / name)`: the name under the folder, with one slash
      between them; an empty folder is the current one. */
  function JoinPath(dir: string, name: string): (r: string)
    ensures dir == "" ==> r == name
    ensures dir != "" ==> |dir| + |name| <= |r| && r[..|dir|] == dir && r[|r| - |name|..] == name && r[|r| - |name| - 1] == '/'
  {
    if dir == "" then name
    else if dir[|dir| - 1] == '/' then dir + name
    else dir + "/" + name
  }

  function Header(): seq<string>
  {
    ["sample_id", "id", "abundance", "taxonomy", "file"]
  }

  /** `abundance_data.get(id, ("0", "Unknown"))`. */
  function Lookup(data: map<string, Abundance>, id: string): Abundance
  {
    if id in data then data[id] else Abundance("0", "Unknown")
  }

  /** Lines 55-62: the row of one model file, its path under the base path
      when one is given and under the GEM folder otherwise. */
  function OutputRow(sampleId: string, data: map<string, Abundance>, gemDirectory: string,
                     basePath: string, p: (string, string)): (r: seq<string>)
    ensures |r| == |Header()|
  {
    var a := Lookup(data, p.0);
    var folder := if basePath != "" then basePath else gemDirectory;
    [sampleId, p.0, a.abundance, a.taxonomy, JoinPath(folder, p.0 + p.1)]
  }

  function OutputTable(sampleId: string, data: map<string, Abundance>, gemDirectory: string,
                       idExtensions: seq<(string, string)>, basePath: string): (r: seq<seq<string>>)
    ensures |r| == |idExtensions|
    ensures forall k :: 0 <= k < |r| ==> |r[k]| == |Header()|
  {
    seq(|idExtensions|, k requires 0 <= k < |idExtensions| => OutputRow(sampleId, data, gemDirectory, basePath, idExtensions[k]))
  }

  /** The body of the loop at lines 55-62: one pair's row. */
  method RowOf(sampleId: string, data: map<string, Abundance>, gemDirectory: string,
               basePath: string, p: (string, string))
    returns (row: seq<string>)
    ensures row == OutputRow(sampleId, data, gemDirectory, basePath, p)
  {
    var (id, extension) := p;
    var a := if id in data then data[id] else Abundance("0", "Unknown");
    var originalFilePath := JoinPath(gemDirectory, id + extension);
    var filePath;
    if basePath != "" {
      filePath := JoinPath(basePath, id + extension);
    } else {
      filePath := originalFilePath;
    }
    row := [sampleId, id, a.abundance, a.taxonomy, filePath];
  }

  /** Lines 47-63 of the kubeflow copy; the other copy (lines 41-54) has
      no base path, which is the default here. */
  method BuildOutputTable(sampleId: string, data: map<string, Abundance>, gemDirectory: string,
                          idExtensions: seq<(string, string)>, basePath: string := "")
    returns (outputData: seq<seq<string>>)
    ensures outputData == OutputTable(sampleId, data, gemDirectory, idExtensions, basePath)
  {
    outputData := [];
    for i := 0 to |idExtensions|
      invariant |outputData| == i
      invariant forall k :: 0 <= k < i ==> outputData[k] == OutputRow(sampleId, data, gemDirectory, basePath, idExtensions[k])
    {
      var row := RowOf(sampleId, data, gemDirectory, basePath, idExtensions[i]);
      outputData := outputData + [row];
    }
  }

  /** Lines 55-62: one row per pair, in order, five columns each: the
      sample, the id, the id's abundance and taxonomy or "0" and "Unknown"
      for an id the abundance data lacks, and the model file's path. */
  lemma OutputRows(sampleId: string, data: map<string, Abundance>, gemDirectory: string,
                   idExtensions: seq<(string, string)>, basePath: string, i: nat)
    requires i < |idExtensions|
    ensures OutputTable(sampleId, data, gemDirectory, idExtensions, basePath)[i]
         == OutputRow(sampleId, data, gemDirectory, basePath, idExtensions[i])
    ensures var row := OutputTable(sampleId, data, gemDirectory, idExtensions, basePath)[i];
      var id := idExtensions[i].0;
      && |row| == |Header()|
      && row[0] == sampleId && row[1] == id
      && (id in data ==> row[2] == data[id].abundance && row[3] == data[id].taxonomy)
      && (id !in data ==> row[2] == "0" && row[3] == "Unknown")
      && (basePath != "" ==> row[4] == JoinPath(basePath, id + idExtensions[i].1))
      && (basePath == "" ==> row[4] == JoinPath(gemDirectory, id + idExtensions[i].1))
  {
  }

  /** Line 52 of the copy without a base path: the path is always under
      the GEM folder, and ends with the model file's name. */
  lemma PathUnderGemDirectory(sampleId: string, data: map<string, Abundance>, gemDirectory: string,
                              names: seq<string>, i: nat)
    requires i < |ModelFiles(names)|
    ensures var row := OutputTable(sampleId, data, gemDirectory, ModelFiles(names), "")[i];
      && row[4] == JoinPath(gemDirectory, ModelFiles(names)[i].0 + ModelFiles(names)[i].1)
      && row[4][|row[4]| - |ModelFiles(names)[i].0 + ModelFiles(names)[i].1|..] in names
  {
    var p := ModelFiles(names)[i];
    ModelFilesListed(names, p);
    OutputRows(sampleId, data, gemDirectory, ModelFiles(names), "", i);
  }

  /** The whole pipeline of the script: each listed model file's row
      carries the abundance and taxonomy of the last abundance row with
      its id, or the defaults when there is none. */
  lemma TableFromFiles(sampleId: string, rows: seq<Record>, gemDirectory: string, names: seq<string>,
                       basePath: string, i: nat)
    requires forall k :: 0 <= k < |rows| ==> "id" in rows[k] && "abundance" in rows[k] && "taxonomy" in rows[k]
    requires ReadAbundanceFile(rows).Success?
    requires i < |ModelFiles(names)|
    ensures var row := OutputTable(sampleId, ReadAbundanceFile(rows).value, gemDirectory, ModelFiles(names), basePath)[i];
      var id := ModelFiles(names)[i].0;
      && ((forall k :: 0 <= k < |rows| ==> rows[k]["id"] != id) ==> row[2] == "0" && row[3] == "Unknown")
      && (forall k :: 0 <= k < |rows| && rows[k]["id"] == id && (forall j :: k < j < |rows| ==> rows[j]["id"] != id) ==>
            row[2] == rows[k]["abundance"] && row[3] == rows[k]["taxonomy"])
  {
    var id := ModelFiles(names)[i].0;
    AbundanceOfRows(rows, id);
    OutputRows(sampleId, ReadAbundanceFile(rows).value, gemDirectory, ModelFiles(names), basePath, i);
  }

  // Writing the table.

  /** `csv.writer` with the default minimal quoting quotes a field holding
      the delimiter, the quote character or a line break, doubling the
      quotes inside. */
  predicate NeedsQuotes(f: string)
  {
    '\t' in f || '"' in f || '\r' in f || '\n' in f
  }

  function DoubleQuotes(f: string): (r: string)
    ensures |r| >= |f|
    ensures '"' !in f ==> r == f
    decreases |f|
  {
    if f == [] then []
    else (if f[0] == '"' then "\"\"" else [f[0]]) + DoubleQuotes(f[1..])
  }

  function Field(f: string): string
  {
    if NeedsQuotes(f) then "\"" + DoubleQuotes(f) + "\"" else f
  }

  function Fields(row: seq<string>): (r: seq<string>)
    ensures |r| == |row| && forall i :: 0 <= i < |row| ==> r[i] == Field(row[i])
  {
    seq(|row|, i requires 0 <= i < |row| => Field(row[i]))
  }

  /** One written line, ended by the writer's "\r\n". A row without fields
      is an empty line. */
  function Line(row: seq<string>): string
  {
    (if row == [] then "" else Join(Fields(row), '\t')) + "\r\n"
  }

  function Lines(rows: seq<seq<string>>): string
    decreases |rows|
  {
    if rows == [] then "" else Lines(rows[..|rows| - 1]) + Line(rows[|rows| - 1])
  }

  /** Lines 66-70, with the file's content as the result: the header, then
      every row in order. */
  method WriteOutputTable(outputData: seq<seq<string>>) returns (text: string)
    ensures text == Line(Header()) + Lines(outputData)
  {
    var body := "";
    for i := 0 to |outputData|
      invariant body == Lines(outputData[..i])
    {
      assert outputData[..i + 1][..i] == outputData[..i];
      body := body + Line(outputData[i]);
    }
    assert outputData[..|outputData|] == outputData;
    text := Line(Header()) + body;
  }

  lemma {:induction false} SplitJoin(parts: seq<string>, sep: char)
    requires |parts| >= 1
    requires forall i :: 0 <= i < |parts| ==> sep !in parts[i]
    ensures Split(Join(parts, sep), sep) == parts
    decreases |parts|
  {
    if |parts| == 1 {
      SplitFirstField(parts[0], sep);
      assert FirstIndexOf(parts[0], sep) == |parts[0]|;
      assert parts[0][..|parts[0]|] == parts[0];
    } else {
      SplitJoin(parts[1..], sep);
      SplitAfterField(parts[0], sep, Join(parts[1..], sep));
    }
  }

  /** A row of plain fields reads back from its line by splitting on tabs:
      the writer changes nothing in it. */
  lemma LineReadsBack(row: seq<string>)
    requires |row| >= 1
    requires forall i :: 0 <= i < |row| ==> !NeedsQuotes(row[i])
    ensures Line(row)[|Line(row)| - 2..] == "\r\n"
    ensures Split(Line(row)[..|Line(row)| - 2], '\t') == row
  {
    assert Fields(row) == row;
    var body := Join(row, '\t');
    assert Line(row) == body + "\r\n";
    assert Line(row)[..|Line(row)| - 2] == body;
    SplitJoin(row, '\t');
  }

  /** Line 69: the header line reads back as the five column names. */
  lemma HeaderReadsBack()
    ensures Split(Line(Header())[..|Line(Header())| - 2], '\t') == Header()
  {
    LineReadsBack(Header());
  }
}
