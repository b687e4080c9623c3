/**
 * `scripts/export_norming_to_face_ages.py`: choosing the model-ID and age
 * columns of the norming sheet, keying ages by model ID, and writing one
 * `face_id,actual_age` row per line of the face order file. The spreadsheet
 * is abstracted to its column labels and to the `(model, age)` pairs pandas
 * extracts from it.
 */
module AgeExport {
  import opened Wrappers
  import opened Strings
  import opened FaceIds

  /** The index of the first label satisfying `p`, if any. */
  function FirstWhere(labels: seq<string>, p: string -> bool): (r: Option<nat>)
    ensures r.Some? ==> r.value < |labels| && p(labels[r.value])
    ensures r.Some? ==> forall j :: 0 <= j < r.value ==> !p(labels[j])
    ensures r.None? <==> forall j :: 0 <= j < |labels| ==> !p(labels[j])
    decreases |labels|
  {
    if |labels| == 0 then None
    else if p(labels[0]) then Some(0)
    else match FirstWhere(labels[1..], p)
      case None => None
      case Some(k) => Some(k + 1)
  }

  /** `c and "age" in str(c).lower()`: a non-empty label containing `age` in any case. */
  predicate IsAgeLabel(c: string)
  {
    c != "" && Contains(Lower(c), "age")
  }

  /** `"target" in s or "model" in s or "id" in s or "face" in s` on the lower-cased label. */
  predicate IsIdLabel(c: string)
  {
    var s := Lower(c);
    Contains(s, "target") || Contains(s, "model") || Contains(s, "id") || Contains(s, "face")
  }

  /** `find_age_column`: the first age-like column, or `None`. */
  function FindAgeColumn(cols: seq<string>): (r: Option<string>)
    ensures r.None? <==> forall j :: 0 <= j < |cols| ==> !IsAgeLabel(cols[j])
    ensures r.Some? ==> exists k :: 0 <= k < |cols| && cols[k] == r.value && IsAgeLabel(cols[k])
                                    && forall j :: 0 <= j < k ==> !IsAgeLabel(cols[j])
  {
    match FirstWhere(cols, IsAgeLabel)
    case None => None
    case Some(k) => Some(cols[k])
  }

  /**
   * `find_id_column`: the first ID-like column, else the first column. On an
   * empty header `df.columns[0]` raises, which `None` stands for here.
   */
  function FindIdColumn(cols: seq<string>): (r: Option<string>)
    ensures r.None? <==> |cols| == 0
    ensures (exists j :: 0 <= j < |cols| && IsIdLabel(cols[j])) ==>
      exists k :: 0 <= k < |cols| && cols[k] == r.value && IsIdLabel(cols[k])
                  && forall j :: 0 <= j < k ==> !IsIdLabel(cols[j])
    ensures |cols| > 0 && (forall j :: 0 <= j < |cols| ==> !IsIdLabel(cols[j])) ==> r == Some(cols[0])
  {
    if |cols| == 0 then None
    else match FirstWhere(cols, IsIdLabel)
      case None => Some(cols[0])
      case Some(k) => Some(cols[k])
  }

  datatype ColumnError = EmptyHeader | NoAgeColumn

  datatype Columns = Columns(id: string, age: string)

  datatype ColumnChoice = Chosen(columns: Columns) | Failed(error: ColumnError)

  /**
   * The column decisions of `main`, in its order: the age column is looked
   * for first, then the ID column (which raises on an empty header), and only
   * then is a missing age column reported.
   */
  function ChooseColumns(cols: seq<string>): (r: ColumnChoice)
    ensures r == Failed(EmptyHeader) <==> |cols| == 0
    ensures r == Failed(NoAgeColumn) <==> |cols| > 0 && forall j :: 0 <= j < |cols| ==> !IsAgeLabel(cols[j])
    ensures r.Chosen? ==> r.columns.id in cols && r.columns.age in cols && IsAgeLabel(r.columns.age)
    ensures r.Chosen? ==> FindAgeColumn(cols) == Some(r.columns.age) && FindIdColumn(cols) == Some(r.columns.id)
  {
    var age := FindAgeColumn(cols);
    match FindIdColumn(cols)
    case None => Failed(EmptyHeader)
    case Some(id) =>
      match age
      case None => Failed(NoAgeColumn)
      case Some(a) => Chosen(Columns(id, a))
  }

  /** A norming row after pandas: its model ID as text and its age as an integer. */
  datatype Norm = Norm(model: string, age: int)

  /** `norm["cfd_model"].astype(str).str.strip()`: every model ID stripped, ages unchanged. */
  function StripModels(norm: seq<Norm>): (r: seq<Norm>)
    ensures |r| == |norm|
    ensures forall i :: 0 <= i < |norm| ==> r[i] == Norm(Strip(norm[i].model), norm[i].age)
  {
    seq(|norm|, i requires 0 <= i < |norm| => Norm(Strip(norm[i].model), norm[i].age))
  }

  /** The map is keyed by the stripped model IDs: a key is present exactly when some row strips to it. */
  lemma StrippedKeys(norm: seq<Norm>)
    ensures forall key :: key in AgeMap(StripModels(norm))
                       <==> exists i :: 0 <= i < |norm| && Strip(norm[i].model) == key
  {
    var stripped := StripModels(norm);
    AgeMapKeys(stripped);
    forall key, i | 0 <= i < |norm| && Strip(norm[i].model) == key
      ensures key in AgeMap(stripped)
    {
      assert stripped[i].model == key;
    }
  }

  /** `dict(zip(models, ages))`: built left to right, so a later row overwrites an earlier one. */
  function AgeMap(norm: seq<Norm>): (m: map<string, int>)
    ensures forall i :: 0 <= i < |norm| ==> norm[i].model in m
    decreases |norm|
  {
    if |norm| == 0 then map[]
    else
      var last := norm[|norm| - 1];
      AgeMap(norm[..|norm| - 1])[last.model := last.age]
  }

  /** Row `i` is the last row whose model ID is `key`. */
  predicate LastFor(norm: seq<Norm>, i: nat, key: string)
  {
    i < |norm| && norm[i].model == key
    && forall j :: i < j < |norm| ==> norm[j].model != key
  }

  /** The map holds exactly the model IDs of the rows. */
  lemma {:induction false} AgeMapKeys(norm: seq<Norm>)
    ensures forall key :: key in AgeMap(norm) <==> exists i :: 0 <= i < |norm| && norm[i].model == key
    decreases |norm|
  {
    if |norm| > 0 {
      var init, n := norm[..|norm| - 1], |norm| - 1;
      AgeMapKeys(init);
      forall key | key in AgeMap(norm)
        ensures exists i :: 0 <= i < |norm| && norm[i].model == key
      {
        if key in AgeMap(init) {
          var i :| 0 <= i < |init| && init[i].model == key;
          assert norm[i] == init[i];
        } else {
          assert norm[n].model == key;
        }
      }
    }
  }

  /** When a model ID repeats, the later row's age wins: each key maps to the age of its last row. */
  lemma {:induction false} AgeMapLastWins(norm: seq<Norm>, i: nat)
    requires i < |norm| && LastFor(norm, i, norm[i].model)
    ensures AgeMap(norm)[norm[i].model] == norm[i].age
    decreases |norm|
  {
    var init, n := norm[..|norm| - 1], |norm| - 1;
    if i < n {
      assert init[i] == norm[i];
      assert LastFor(init, i, init[i].model);
      AgeMapLastWins(init, i);
    }
  }

  /** Every key of the map stands for its last row. */
  lemma {:induction false} AgeMapHasLast(norm: seq<Norm>, key: string)
    requires key in AgeMap(norm)
    ensures exists j: nat :: LastFor(norm, j, key) && AgeMap(norm)[key] == norm[j].age
    decreases |norm|
  {
    var init, n := norm[..|norm| - 1], |norm| - 1;
    if norm[n].model == key {
      assert LastFor(norm, n, key);
    } else {
      AgeMapHasLast(init, key);
      var j: nat :| LastFor(init, j, key) && AgeMap(init)[key] == init[j].age;
      assert init[j] == norm[j];
      assert LastFor(norm, j, key);
    }
  }

  /** `[ln.strip() for ln in f if ln.strip()]`. */
  function NonBlankLines(raw: seq<string>): (lines: seq<string>)
    ensures |lines| <= |raw|
    ensures forall k :: 0 <= k < |lines| ==> lines[k] != "" && Strip(lines[k]) == lines[k]
    decreases |raw|
  {
    if |raw| == 0 then []
    else
      var rest := NonBlankLines(raw[1..]);
      var s := Strip(raw[0]);
      StripIdempotent(raw[0]);
      if s == "" then rest else [s] + rest
  }

  /** The kept lines are the stripped non-blank lines, in file order: filtering distributes over concatenation. */
  lemma {:induction false} NonBlankLinesConcat(a: seq<string>, b: seq<string>)
    ensures NonBlankLines(a + b) == NonBlankLines(a) + NonBlankLines(b)
    decreases |a|
  {
    if |a| > 0 {
      assert (a + b)[1..] == a[1..] + b;
      NonBlankLinesConcat(a[1..], b);
    } else {
      assert a + b == b;
    }
  }

  /** A single line is kept, stripped, exactly when it is not all whitespace. */
  lemma NonBlankLine(ln: string)
    ensures NonBlankLines([ln]) == if Strip(ln) == "" then [] else [Strip(ln)]
    ensures Strip(ln) == "" <==> forall k :: 0 <= k < |ln| ==> IsSpace(ln[k])
  {
    assert [ln][1..] == [];
    StripEmptyIffAllSpace(ln);
  }

  /**
   * `age_by_model.get(id) or age_by_model.get(id + "-N")`: an exact match
   * counts only when its age is truthy, so an age of 0 falls through to the
   * `-N` key.
   */
  function LookupAge(m: map<string, int>, key: string): (r: Option<int>)
    ensures key in m && m[key] != 0 ==> r == Some(m[key])
    ensures !(key in m && m[key] != 0) && key + "-N" in m ==> r == Some(m[key + "-N"])
    ensures r.None? <==> !(key in m && m[key] != 0) && key + "-N" !in m
  {
    if key in m && m[key] != 0 then Some(m[key])
    else if key + "-N" in m then Some(m[key + "-N"])
    else None
  }

  /** A model ID whose last row has a non-zero age gets that age. */
  lemma LookupExact(norm: seq<Norm>, key: string, i: nat)
    requires i < |norm| && LastFor(norm, i, key) && norm[i].age != 0
    ensures LookupAge(AgeMap(norm), key) == Some(norm[i].age)
  {
    AgeMapLastWins(norm, i);
  }

  /**
   * A model ID that is missing, or whose last row has age 0, gets the age of
   * the last row keyed `<id>-N`.
   */
  lemma LookupFallback(norm: seq<Norm>, key: string, i: nat)
    requires forall j: nat :: LastFor(norm, j, key) ==> norm[j].age == 0
    requires i < |norm| && LastFor(norm, i, key + "-N")
    ensures LookupAge(AgeMap(norm), key) == Some(norm[i].age)
  {
    if key in AgeMap(norm) {
      AgeMapHasLast(norm, key);
    }
    AgeMapLastWins(norm, i);
  }

  /**
   * With neither a usable exact row nor any `<id>-N` row, the age is left
   * blank; in particular an exact row with age 0 and no `-N` row gives a blank.
   */
  lemma LookupBlank(norm: seq<Norm>, key: string)
    requires forall j: nat :: LastFor(norm, j, key) ==> norm[j].age == 0
    requires forall j :: 0 <= j < |norm| ==> norm[j].model != key + "-N"
    ensures LookupAge(AgeMap(norm), key) == None
    ensures AgeText(LookupAge(AgeMap(norm), key)) == ""
  {
    if key in AgeMap(norm) {
      AgeMapHasLast(norm, key);
    }
    AgeMapKeys(norm);
  }

  /** `age if age is not None else ""`, then formatted into the CSV line. */
  function AgeText(a: Option<int>): (t: string)
    ensures a.None? <==> t == ""
    ensures forall k :: 0 <= k < |t| ==> IsDigit(t[k]) || t[k] == '-'
    ensures a.Some? && a.value >= 0 ==> IsDigits(t) && DecimalValue(t) == a.value
    ensures a.Some? && a.value < 0 ==>
      |t| > 1 && t[0] == '-' && IsDigits(t[1..]) && DecimalValue(t[1..]) == -a.value
  {
    match a
    case None => ""
    case Some(v) =>
      if v < 0 then
        DecimalRoundTrip(-v);
        assert ("-" + NatToDecimal(-v))[1..] == NatToDecimal(-v);
        IntToText(v)
      else
        DecimalRoundTrip(v);
        IntToText(v)
  }

  /**
   * The written age is Python's canonical `str(age)`: no leading zero except
   * for zero itself, and none after the minus sign of a negative age.
   */
  lemma AgeTextCanonical(v: int)
    ensures var t := AgeText(Some(v));
      && (v >= 0 ==> (t[0] == '0' <==> v == 0))
      && (v < 0 ==> t[1] != '0')
      && (v == 0 ==> t == "0")
  {
    if v >= 0 {
      NatToDecimalNoLeadingZero(v);
    } else {
      NatToDecimalNoLeadingZero(-v);
      assert AgeText(Some(v))[1..] == NatToDecimal(-v);
    }
  }

  datatype Row = Row(faceId: string, age: string)

  /** At most this many lines of the order file are used. */
  const MaxFaces: nat := 200

  /** The row for line `i`: numbered `i + 1`, with the age looked up for that line's model ID. */
  function RowAt(lines: seq<string>, m: map<string, int>, i: nat): Row
    requires i < |lines|
  {
    Row(FaceId(i + 1), AgeText(LookupAge(m, Strip(lines[i]))))
  }

  /** Every row is the row for its line. */
  predicate RowsFor(rows: seq<Row>, lines: seq<string>, m: map<string, int>)
  {
    |rows| <= |lines| && forall i :: 0 <= i < |rows| ==> rows[i] == RowAt(lines, m, i)
  }

  /** The loop over `enumerate(lines[:200])`: one row per line, in order. */
  method BuildRows(lines: seq<string>, m: map<string, int>) returns (rows: seq<Row>)
    ensures |rows| == if |lines| < MaxFaces then |lines| else MaxFaces
    ensures RowsFor(rows, lines, m)
  {
    var n := if |lines| < MaxFaces then |lines| else MaxFaces;
    rows := seq(n, j requires 0 <= j < n => RowAt(lines, m, j));
  }

  /**
   * Row numbering: every face ID has three digits, row `i` is numbered
   * `i + 1`, and the numbers strictly increase, so `line 1 = face_001 ...
   * line 200 = face_200`.
   */
  lemma RowIdsIncrease(rows: seq<Row>, lines: seq<string>, m: map<string, int>)
    requires |rows| <= MaxFaces && RowsFor(rows, lines, m)
    ensures forall i :: 0 <= i < |rows| ==> |rows[i].faceId| == 3 && DecimalValue(rows[i].faceId) == i + 1
    ensures forall i, j :: 0 <= i < j < |rows| ==> DecimalValue(rows[i].faceId) < DecimalValue(rows[j].faceId)
  {
  }

  /** The first line of the CSV file. */
  const Header: string := "face_id,actual_age\n"

  function RenderRow(r: Row): string
  {
    r.faceId + "," + r.age + "\n"
  }

  /** `f.write(f"{fid},{a}\n")` for every row, in order. */
  function RenderRows(rows: seq<Row>): string
    decreases |rows|
  {
    if |rows| == 0 then "" else RenderRow(rows[0]) + RenderRows(rows[1..])
  }

  /** The whole file text. */
  function RenderCsv(rows: seq<Row>): (t: string)
    ensures StartsWith(t, Header)
  {
    Header + RenderRows(rows)
  }

  /** The first position of `c` in `s`, if any. */
  function IndexOf(s: string, c: char): (r: Option<nat>)
    ensures r.Some? ==> r.value < |s| && s[r.value] == c && forall j :: 0 <= j < r.value ==> s[j] != c
    ensures r.None? ==> forall j :: 0 <= j < |s| ==> s[j] != c
    decreases |s|
  {
    if |s| == 0 then None
    else if s[0] == c then Some(0)
    else match IndexOf(s[1..], c)
      case None => None
      case Some(k) => Some(k + 1)
  }

  lemma {:induction false} IndexOfAfter(a: string, c: char, b: string)
    requires forall j :: 0 <= j < |a| ==> a[j] != c
    ensures IndexOf(a + [c] + b, c) == Some(|a|)
    decreases |a|
  {
    if |a| > 0 {
      assert (a + [c] + b)[0] == a[0];
      assert (a + [c] + b)[1..] == a[1..] + [c] + b;
      IndexOfAfter(a[1..], c, b);
    }
  }

  /** Reads the rows back: each line up to its newline, split at its first comma. */
  function ParseRows(t: string): Option<seq<Row>>
    decreases |t|
  {
    if |t| == 0 then Some([])
    else match IndexOf(t, '\n')
      case None => None
      case Some(e) =>
        var line := t[..e];
        match IndexOf(line, ',')
        case None => None
        case Some(c) =>
          match ParseRows(t[e + 1..])
          case None => None
          case Some(rest) => Some([Row(line[..c], line[c + 1..])] + rest)
  }

  /** An independent reader of the CSV file text. */
  function ParseCsv(t: string): Option<seq<Row>>
  {
    if StartsWith(t, Header) then ParseRows(t[|Header|..]) else None
  }

  /** Fields that the CSV format can carry: no comma in the ID, no newline in either field. */
  predicate PlainRow(r: Row)
  {
    (forall j :: 0 <= j < |r.faceId| ==> r.faceId[j] != ',' && r.faceId[j] != '\n')
    && forall j :: 0 <= j < |r.age| ==> r.age[j] != '\n'
  }

  lemma ParseRowsStep(r: Row, rest: string)
    requires PlainRow(r)
    ensures ParseRows(RenderRow(r) + rest) ==
      match ParseRows(rest) case None => None case Some(rs) => Some([r] + rs)
  {
    var line := r.faceId + "," + r.age;
    var t := RenderRow(r) + rest;
    assert t == line + ['\n'] + rest;
    assert forall j :: 0 <= j < |line| ==> line[j] != '\n' by {
      forall j | 0 <= j < |line| ensures line[j] != '\n' {
        if j < |r.faceId| {
          assert line[j] == r.faceId[j];
        } else if j > |r.faceId| {
          assert line[j] == r.age[j - |r.faceId| - 1];
        }
      }
    }
    IndexOfAfter(line, '\n', rest);
    assert t[..|line|] == line;
    assert t[|line| + 1..] == rest;
    assert line == r.faceId + [','] + r.age;
    IndexOfAfter(r.faceId, ',', r.age);
    assert line[..|r.faceId|] == r.faceId;
    assert line[|r.faceId| + 1..] == r.age;
  }

  /** Reading the rendered rows gives the rows back. */
  lemma {:induction false} ParseRenderedRows(rows: seq<Row>)
    requires forall k :: 0 <= k < |rows| ==> PlainRow(rows[k])
    ensures ParseRows(RenderRows(rows)) == Some(rows)
    decreases |rows|
  {
    if |rows| > 0 {
      ParseRenderedRows(rows[1..]);
      ParseRowsStep(rows[0], RenderRows(rows[1..]));
      assert [rows[0]] + rows[1..] == rows;
    }
  }

  /** The CSV text is the header followed by the rows, and nothing else: it reads back to exactly the rows. */
  lemma CsvRoundTrip(rows: seq<Row>)
    requires forall k :: 0 <= k < |rows| ==> PlainRow(rows[k])
    ensures ParseCsv(RenderCsv(rows)) == Some(rows)
  {
    assert RenderCsv(rows)[|Header|..] == RenderRows(rows);
    ParseRenderedRows(rows);
  }

  /** The rows the export loop produces are always plain, so the round trip applies to them. */
  lemma ExportRowsPlain(rows: seq<Row>, lines: seq<string>, m: map<string, int>)
    requires |rows| <= MaxFaces && RowsFor(rows, lines, m)
    ensures forall k :: 0 <= k < |rows| ==> PlainRow(rows[k])
  {
    forall k | 0 <= k < |rows| ensures PlainRow(rows[k]) {
      var id := rows[k].faceId;
      assert IsDigits(id);
      assert forall j :: 0 <= j < |id| ==> IsDigit(id[j]);
    }
  }

  /** What the script leaves behind. */
  datatype Outcome =
    | Exit(error: ColumnError)
    | NormingOnly
    | FaceAges(csv: string)

  /**
   * `main` after the spreadsheet has been read: the column choice, then,
   * when the order file exists (its lines as the file iterator yields them),
   * the face-ages file.
   */
  method Export(cols: seq<string>, norm: seq<Norm>, order: Option<seq<string>>) returns (out: Outcome)
    ensures out.Exit? <==> ChooseColumns(cols).Failed?
    ensures out.Exit? ==> out.error == ChooseColumns(cols).error
    ensures out.NormingOnly? <==> ChooseColumns(cols).Chosen? && order.None?
    ensures out.FaceAges? ==>
      exists rows: seq<Row> ::
        && out.csv == RenderCsv(rows)
        && ParseCsv(out.csv) == Some(rows)
        && RowsFor(rows, NonBlankLines(order.value), AgeMap(StripModels(norm)))
        && |rows| == (var n := |NonBlankLines(order.value)|; if n < MaxFaces then n else MaxFaces)
  {
    match ChooseColumns(cols)
    case Failed(e) =>
      out := Exit(e);
    case Chosen(_) =>
      match order
      case None =>
        out := NormingOnly;
      case Some(raw) =>
        var lines := NonBlankLines(raw);
        var ages := AgeMap(StripModels(norm));
        var rows := BuildRows(lines, ages);
        ExportRowsPlain(rows, lines, ages);
        CsvRoundTrip(rows);
        out := FaceAges(RenderCsv(rows));
  }
}
