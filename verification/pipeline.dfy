/** The batch job `main` (image_resize.py): cleaning of cells, the choice of
    the public_id, the row loop with its counters and output rows, the
    output column order, and the early exits. Reading and writing the
    workbook, the network and the clock are parameters: the sheet arrives
    as an already loaded `Table`, and the upload of one image is an oracle
    from the request to its outcome. */
module Pipeline {
  import opened Wrappers
  import opened Strings
  import opened Ordering
  import opened Sanitize
  import opened Signature
  import opened UrlTransform
  import opened Upload

  /** `USE_IMAGE_ALT_TEXT_AS_PUBLIC_ID`. */
  const UseAltTextAsPublicId: bool := true
  /** `CLD_DELIVERY_TRANSFORM`. */
  const DeliveryTransform: string := "c_pad,w_800,h_800,b_white,f_auto,q_auto,dpr_auto"

  const SkuColumn: string := "SKU"
  const ImageColumn: string := "Image"
  const AltTextColumn: string := "Image Alt Text"
  const ProductNameColumn: string := "Product Name"
  const StartingUrlColumn: string := "Starting Url"
  const VariantSkuColumn: string := "Variant SKU"
  const ImageSrcColumn: string := "Image Src"

  /** The characters Python's `str.strip()` removes when given no argument:
      those for which `str.isspace` holds. */
  const PythonWhitespace: set<char> :=
    {'\U{9}', '\U{A}', '\U{B}', '\U{C}', '\U{D}', '\U{1C}', '\U{1D}', '\U{1E}', '\U{1F}',
     ' ', '\U{85}', '\U{A0}', '\U{1680}',
     '\U{2000}', '\U{2001}', '\U{2002}', '\U{2003}', '\U{2004}', '\U{2005}', '\U{2006}',
     '\U{2007}', '\U{2008}', '\U{2009}', '\U{200A}',
     '\U{2028}', '\U{2029}', '\U{202F}', '\U{205F}', '\U{3000}'}

  /** One sheet row, by column name. A column missing from the map is an
      empty (NaN) cell. */
  type Row = map<string, string>

  /** A loaded sheet: its column names in sheet order and its rows. */
  datatype Table = Table(columns: seq<string>, rows: seq<Row>)

  /** `row.get(col)`: the cell, or nothing for an empty or absent cell. */
  function Get(row: Row, col: string): Option<string>
  {
    if col in row then Some(row[col]) else None
  }

  /** `cell_str`: an empty cell becomes `""`, any other cell loses its
      leading and trailing white space. */
  function CellStr(cell: Option<string>): (r: string)
    ensures cell.None? ==> r == ""
    ensures r == [] || (r[0] !in PythonWhitespace && r[|r| - 1] !in PythonWhitespace)
    ensures cell.Some? ==> exists i ::
      && 0 <= i <= |cell.value| && r <= cell.value[i..]
      && (forall k :: 0 <= k < i ==> cell.value[k] in PythonWhitespace)
      && (forall k :: i + |r| <= k < |cell.value| ==> cell.value[k] in PythonWhitespace)
  {
    match cell
    case None => ""
    case Some(t) =>
      var r := Strip(t, PythonWhitespace);
      var i := LeadIn(t, PythonWhitespace);
      assert 0 <= i <= |t| - |r| && r == t[i..i + |r|];
      assert r <= t[i..];
      r
  }

  /** Cleaning a cell a second time changes nothing. */
  lemma CellStrIdempotent(cell: Option<string>)
    ensures CellStr(Some(CellStr(cell))) == CellStr(cell)
  {
  }

  /** A cell cleans to `""` exactly when it is empty or holds only white space. */
  lemma CellStrEmpty(cell: Option<string>)
    ensures CellStr(cell) == "" <==>
      cell.None? || forall k :: 0 <= k < |cell.value| ==> cell.value[k] in PythonWhitespace
  {
    if cell.Some? && CellStr(cell) == "" {
      var t := cell.value;
      var i :| 0 <= i <= |t|
        && (forall k :: 0 <= k < i ==> t[k] in PythonWhitespace)
        && (forall k :: i <= k < |t| ==> t[k] in PythonWhitespace);
    }
    if cell.Some? && CellStr(cell) != "" {
      var t := cell.value;
      var r := CellStr(cell);
      var i :| 0 <= i <= |t| && r <= t[i..];
      assert t[i] == r[0] && r[0] !in PythonWhitespace;
    }
  }

  /** The cleaned cell of a column. */
  function Cell(row: Row, col: string): string
  {
    CellStr(Get(row, col))
  }

  /** A column the loop reads only when the sheet has it. */
  function OptionalCell(cols: seq<string>, row: Row, col: string): string
  {
    if col in cols then Cell(row, col) else ""
  }

  /** The public_id choice: the sanitised alt text when that is switched on
      and not empty, else the sanitised product name when not empty, else
      the SKU. */
  function ChoosePublicId(useAlt: bool, altId: string, nameId: string, sku: string): (r: string)
    ensures r == altId || r == nameId || r == sku
    ensures useAlt && altId != "" ==> r == altId
    ensures !(useAlt && altId != "") && nameId != "" ==> r == nameId
    ensures !(useAlt && altId != "") && nameId == "" ==> r == sku
    ensures r != "" <==> (useAlt && altId != "") || nameId != "" || sku != ""
  {
    if useAlt && altId != "" then altId
    else if nameId != "" then nameId
    else sku
  }

  /** The public_id the loop chooses for a row: a sanitised token or the
      SKU itself, never empty when the SKU is not, and the SKU whenever the
      sheet has neither an alt-text nor a product-name column. */
  function PublicIdFor(u: UnicodeData, cols: seq<string>, row: Row): (r: string)
    ensures r == Cell(row, SkuColumn) || IsToken(u, r)
    ensures Cell(row, SkuColumn) != "" ==> r != ""
    ensures AltTextColumn !in cols && ProductNameColumn !in cols ==> r == Cell(row, SkuColumn)
  {
    assert Decomposed(u, "") == "";
    var altId := ToPublicId(u, Some(OptionalCell(cols, row, AltTextColumn)));
    var nameId := ToPublicId(u, Some(OptionalCell(cols, row, ProductNameColumn)));
    ChoosePublicId(UseAltTextAsPublicId, altId, nameId, Cell(row, SkuColumn))
  }

  /** The cell holds a character other than white space. */
  predicate HasText(s: string)
  {
    exists k :: 0 <= k < |s| && s[k] !in PythonWhitespace
  }

  /** A row is attempted when its cleaned SKU and Image cells are both
      non-empty: when both cells are present and hold some text other than
      white space. */
  function Qualifies(row: Row): (b: bool)
    ensures b <==> && SkuColumn in row && HasText(row[SkuColumn])
                   && ImageColumn in row && HasText(row[ImageColumn])
  {
    CellStrEmpty(Get(row, SkuColumn));
    CellStrEmpty(Get(row, ImageColumn));
    Cell(row, SkuColumn) != "" && Cell(row, ImageColumn) != ""
  }

  /** One call of `upload_to_cloudinary`: the image URL, the public_id and
      the referer (`referer or None`) it is given, plus the row's 0-based
      position in the sheet. The position is not an argument of the call; it
      is there so that the upload oracle may answer two rows with the same
      arguments differently, as the clock and the network can. */
  datatype Request = Request(row: nat, imageUrl: string, publicId: string, referer: Option<string>)

  /** What one upload call comes back with: the `secure_url` of the stored
      image (possibly `""`), or an exception from fetching or uploading. */
  datatype UploadOutcome = Uploaded(secureUrl: string) | UploadFailed

  /** What happens to one row. */
  datatype RowOutcome =
    | Skipped
    | Failed(req: Request)
    | Done(req: Request, out: Row)

  function RequestFor(u: UnicodeData, cols: seq<string>, index: nat, row: Row): (r: Request)
    requires Qualifies(row)
    ensures r.row == index && r.imageUrl != "" && r.publicId != ""
    ensures r.referer.Some? ==> r.referer.value != ""
  {
    var referer := OptionalCell(cols, row, StartingUrlColumn);
    ChosenIdNonEmpty(u, cols, row);
    Request(index, Cell(row, ImageColumn), PublicIdFor(u, cols, row),
            if referer == "" then None else Some(referer))
  }

  /** A row whose SKU is not empty always gets a non-empty public_id. */
  lemma ChosenIdNonEmpty(u: UnicodeData, cols: seq<string>, row: Row)
    requires Cell(row, SkuColumn) != ""
    ensures PublicIdFor(u, cols, row) != ""
  {
  }

  /** Every attempted upload signs its public_id: `public_id` is among the
      signed parameters with the chosen value. */
  lemma ChosenIdIsSigned(u: UnicodeData, cols: seq<string>, index: nat, row: Row, timestamp: string)
    requires Qualifies(row)
    ensures var req := RequestFor(u, cols, index, row);
      && "public_id" in SignParams(Folder, timestamp, req.publicId).entries
      && SignParams(Folder, timestamp, req.publicId).entries["public_id"] == req.publicId
  {
    var req := RequestFor(u, cols, index, row);
    SignParamsValues(Folder, timestamp, req.publicId);
  }

  /** The image is fetched with a Referer header exactly when the sheet has
      a Starting Url column and the row's cell there is not blank. */
  lemma RefererSentIffStartingUrl(u: UnicodeData, cols: seq<string>, index: nat, row: Row)
    requires Qualifies(row)
    ensures var h := FetchHeaders(RequestFor(u, cols, index, row).referer);
      && ("Referer" in h.entries <==> StartingUrlColumn in cols && Cell(row, StartingUrlColumn) != "")
      && ("Referer" in h.entries ==> h.entries["Referer"] == Cell(row, StartingUrlColumn))
  {
  }

  /** The output row: every source column with its cleaned cell, then
      `Variant SKU` and `Image Src`, which overwrite columns of the same
      name. */
  function OutRow(cols: seq<string>, row: Row, sku: string, secureUrl: string): (r: Row)
    ensures r.Keys == (set c | c in cols) + {VariantSkuColumn, ImageSrcColumn}
    ensures r[VariantSkuColumn] == sku
    ensures r[ImageSrcColumn] == TransformUrl(secureUrl, DeliveryTransform)
    ensures forall c :: c in cols && c != VariantSkuColumn && c != ImageSrcColumn ==> r[c] == Cell(row, c)
  {
    var base := map c | c in cols :: Cell(row, c);
    base[VariantSkuColumn := sku][ImageSrcColumn := TransformUrl(secureUrl, DeliveryTransform)]
  }

  /** One pass of the loop body. */
  function ProcessRow(u: UnicodeData, cols: seq<string>, index: nat, row: Row,
                      upload: Request -> UploadOutcome): (r: RowOutcome)
    ensures r.Skipped? <==> !Qualifies(row)
    ensures !r.Skipped? ==> r.req == RequestFor(u, cols, index, row)
    ensures r.Done? <==> Qualifies(row) && upload(RequestFor(u, cols, index, row)).Uploaded?
    ensures r.Done? ==> r.out == OutRow(cols, row, Cell(row, SkuColumn),
                                        upload(RequestFor(u, cols, index, row)).secureUrl)
  {
    var sku := Cell(row, SkuColumn);
    if sku == "" then Skipped
    else
      var imgUrl := Cell(row, ImageColumn);
      if imgUrl == "" then Skipped
      else
        var req := RequestFor(u, cols, index, row);
        match upload(req)
        case UploadFailed => Failed(req)
        case Uploaded(secureUrl) => Done(req, OutRow(cols, row, sku, secureUrl))
  }

  /** The loop's state: the two counters, the output rows, and the uploads
      asked for so far. */
  datatype Tally = Tally(attempted: nat, processed: nat, outRows: seq<Row>, requests: seq<Request>)

  /** Folding one row outcome into the state. */
  function Step(t: Tally, o: RowOutcome): Tally
  {
    match o
    case Skipped => t
    case Failed(req) => t.(attempted := t.attempted + 1, requests := t.requests + [req])
    case Done(req, out) => Tally(t.attempted + 1, t.processed + 1, t.outRows + [out], t.requests + [req])
  }

  /** The state after folding the first `n` row outcomes, in sheet order. */
  function Fold(os: seq<RowOutcome>, n: nat): (t: Tally)
    requires n <= |os|
    ensures t.processed <= t.attempted <= n
    ensures |t.outRows| == t.processed && |t.requests| == t.attempted
  {
    if n == 0 then Tally(0, 0, [], [])
    else Step(Fold(os, n - 1), os[n - 1])
  }

  /** The outcome of every row. Each pass of the loop body depends on its
      own row only, so the outcomes can be listed before they are folded. */
  function Outcomes(u: UnicodeData, cols: seq<string>, rows: seq<Row>,
                    upload: Request -> UploadOutcome): (os: seq<RowOutcome>)
    ensures |os| == |rows|
  {
    seq(|rows|, i requires 0 <= i < |rows| => ProcessRow(u, cols, i, rows[i], upload))
  }

  /** The row loop of `main` over the whole sheet. */
  function Loop(u: UnicodeData, cols: seq<string>, rows: seq<Row>,
                upload: Request -> UploadOutcome): (t: Tally)
    ensures t.processed <= t.attempted <= |rows|
    ensures |t.outRows| == t.processed && |t.requests| == t.attempted
  {
    Fold(Outcomes(u, cols, rows, upload), |rows|)
  }

  /** The positions below `n` whose flag is set, in ascending order. */
  function Where(flags: seq<bool>, n: nat): (r: seq<nat>)
    requires n <= |flags|
    ensures forall j :: 0 <= j < |r| ==> r[j] < n && flags[r[j]]
    ensures forall i :: 0 <= i < n && flags[i] ==> i in r
    ensures forall j, k :: 0 <= j < k < |r| ==> r[j] < r[k]
  {
    if n == 0 then [] else Where(flags, n - 1) + (if flags[n - 1] then [n - 1] else [])
  }

  function AttemptedOutcomes(os: seq<RowOutcome>): (f: seq<bool>)
    ensures |f| == |os|
  {
    seq(|os|, i requires 0 <= i < |os| => !os[i].Skipped?)
  }

  function DoneOutcomes(os: seq<RowOutcome>): (f: seq<bool>)
    ensures |f| == |os|
  {
    seq(|os|, i requires 0 <= i < |os| => os[i].Done?)
  }

  /** The fold keeps, in order, the request of every outcome that is not a
      skip and the output row of every outcome that is a success, and
      counts both. */
  lemma {:induction false} FoldCollects(os: seq<RowOutcome>, n: nat)
    requires n <= |os|
    ensures var t := Fold(os, n);
      var att := Where(AttemptedOutcomes(os), n);
      var done := Where(DoneOutcomes(os), n);
      && t.attempted == |att| && t.processed == |done|
      && (forall j :: 0 <= j < |att| ==> !os[att[j]].Skipped? && t.requests[j] == os[att[j]].req)
      && (forall j :: 0 <= j < |done| ==> os[done[j]].Done? && t.outRows[j] == os[done[j]].out)
  {
    if n > 0 {
      var i := n - 1;
      FoldCollects(os, i);
      var af := AttemptedOutcomes(os);
      var df := DoneOutcomes(os);
      assert Fold(os, n) == Step(Fold(os, i), os[i]);
      assert Where(af, n) == Where(af, i) + (if af[i] then [i] else []);
      assert Where(df, n) == Where(df, i) + (if df[i] then [i] else []);
      assert af[i] == !os[i].Skipped? && df[i] == os[i].Done?;
    }
  }

  /** Which rows qualify for an upload. */
  function AttemptedFlags(rows: seq<Row>): (f: seq<bool>)
    ensures |f| == |rows|
  {
    seq(|rows|, i requires 0 <= i < |rows| => Qualifies(rows[i]))
  }

  /** Which rows qualify and are uploaded successfully. */
  function UploadedFlags(u: UnicodeData, cols: seq<string>, rows: seq<Row>,
                         upload: Request -> UploadOutcome): (f: seq<bool>)
    ensures |f| == |rows|
  {
    seq(|rows|, i requires 0 <= i < |rows| =>
      Qualifies(rows[i]) && upload(RequestFor(u, cols, i, rows[i])).Uploaded?)
  }

  /** What the loop computes, described row by row: one request per
      qualifying row in sheet order, whatever the uploads return; one output
      row per successful upload in sheet order, carrying that row's SKU and
      transformed URL. */
  lemma LoopMatchesRows(u: UnicodeData, cols: seq<string>, rows: seq<Row>,
                        upload: Request -> UploadOutcome)
    ensures var t := Loop(u, cols, rows, upload);
      var att := Where(AttemptedFlags(rows), |rows|);
      var up := Where(UploadedFlags(u, cols, rows, upload), |rows|);
      && t.attempted == |att| && t.processed == |up|
      && (forall j :: 0 <= j < |att| ==> t.requests[j] == RequestFor(u, cols, att[j], rows[att[j]]))
      && (forall j :: 0 <= j < |up| ==>
            t.outRows[j] == OutRow(cols, rows[up[j]], Cell(rows[up[j]], SkuColumn),
                                   upload(RequestFor(u, cols, up[j], rows[up[j]])).secureUrl))
  {
    var os := Outcomes(u, cols, rows, upload);
    FoldCollects(os, |rows|);
    var af := AttemptedFlags(rows);
    var uf := UploadedFlags(u, cols, rows, upload);
    forall i | 0 <= i < |rows|
      ensures AttemptedOutcomes(os)[i] == af[i]
      ensures DoneOutcomes(os)[i] == uf[i]
      ensures !os[i].Skipped? ==> os[i].req == RequestFor(u, cols, i, rows[i])
      ensures os[i].Done? ==> os[i].out == OutRow(cols, rows[i], Cell(rows[i], SkuColumn),
                                                  upload(RequestFor(u, cols, i, rows[i])).secureUrl)
    {
      assert os[i] == ProcessRow(u, cols, i, rows[i], upload);
    }
    assert AttemptedOutcomes(os) == af;
    assert DoneOutcomes(os) == uf;
  }

  /** Which rows are attempted, and with which requests, does not depend on
      what the uploads return. */
  lemma AttemptsIgnoreUploadResults(u: UnicodeData, cols: seq<string>, rows: seq<Row>,
                                    upload1: Request -> UploadOutcome, upload2: Request -> UploadOutcome)
    ensures Loop(u, cols, rows, upload1).attempted == Loop(u, cols, rows, upload2).attempted
    ensures Loop(u, cols, rows, upload1).requests == Loop(u, cols, rows, upload2).requests
  {
    LoopMatchesRows(u, cols, rows, upload1);
    LoopMatchesRows(u, cols, rows, upload2);
  }

  /** The output column order: `source_cols`, then each extra column that
      is not already there, in the order given. */
  function AppendMissing(cols: seq<string>, extras: seq<string>): (r: seq<string>)
    ensures |cols| <= |r| && r[..|cols|] == cols
    ensures forall e :: e in extras ==> e in r
    ensures forall c :: c in r ==> c in cols || c in extras
    ensures Distinct(cols) ==> Distinct(r)
    decreases |extras|
  {
    if extras == [] then cols
    else
      var grown := if extras[0] in cols then cols else cols + [extras[0]];
      var r := AppendMissing(grown, extras[1..]);
      assert r[..|cols|] == grown[..|cols|] by {
        assert r[..|grown|] == grown;
      }
      assert extras == [extras[0]] + extras[1..];
      r
  }

  function OutputColumns(cols: seq<string>): seq<string>
  {
    AppendMissing(cols, [VariantSkuColumn, ImageSrcColumn])
  }

  /** The output columns are the source columns, then `Variant SKU` unless
      already present, then `Image Src` unless already present. */
  lemma OutputColumnsShape(cols: seq<string>)
    ensures OutputColumns(cols)
      == cols + (if VariantSkuColumn in cols then [] else [VariantSkuColumn])
              + (if ImageSrcColumn in cols then [] else [ImageSrcColumn])
  {
    var extras := [VariantSkuColumn, ImageSrcColumn];
    var first := if VariantSkuColumn in cols then cols else cols + [VariantSkuColumn];
    var second := if ImageSrcColumn in first then first else first + [ImageSrcColumn];
    assert extras[1..] == [ImageSrcColumn] && extras[1..][1..] == [];
    assert AppendMissing(cols, extras) == AppendMissing(first, [ImageSrcColumn]);
    assert AppendMissing(first, [ImageSrcColumn]) == AppendMissing(second, []);
    assert ImageSrcColumn in first <==> ImageSrcColumn in cols;
  }

  /** The output columns name the source columns and the two extra ones,
      and nothing else. */
  lemma OutputColumnSet(cols: seq<string>)
    ensures (set c | c in OutputColumns(cols)) == (set c | c in cols) + {VariantSkuColumn, ImageSrcColumn}
  {
    OutputColumnsShape(cols);
  }

  /** The credentials of the environment; a variable that is unset or empty
      counts as missing. */
  datatype Env = Env(cloudName: Option<string>, apiKey: Option<string>, apiSecret: Option<string>)

  predicate IsSet(v: Option<string>)
  {
    v.Some? && v.value != ""
  }

  predicate HasCredentials(env: Env)
  {
    IsSet(env.cloudName) && IsSet(env.apiKey) && IsSet(env.apiSecret)
  }

  /** How `main` ends. `written` is the output sheet, or nothing when no
      row was processed. */
  datatype RunResult =
    | MissingCredentials
    | ReadFailed
    | MissingColumn(column: string)
    | Finished(attempted: nat, processed: nat, written: Option<Table>)

  /** `main`, given the environment, the sheet as loaded (nothing when
      reading failed), the upload oracle and the Unicode tables. */
  function Run(env: Env, loaded: Option<Table>, upload: Request -> UploadOutcome,
               u: UnicodeData): (r: RunResult)
    ensures r.MissingCredentials? <==> !HasCredentials(env)
    ensures r.ReadFailed? <==> HasCredentials(env) && loaded.None?
    ensures r.MissingColumn? ==>
      && loaded.Some? && r.column !in loaded.value.columns
      && (r.column == SkuColumn || (r.column == ImageColumn && SkuColumn in loaded.value.columns))
    ensures r.Finished? <==>
      && HasCredentials(env) && loaded.Some?
      && SkuColumn in loaded.value.columns && ImageColumn in loaded.value.columns
    ensures r.Finished? ==> r.processed <= r.attempted <= |loaded.value.rows|
    ensures r.Finished? ==> (r.written.Some? <==> r.processed > 0)
    ensures r.Finished? && r.written.Some? ==>
      var w := r.written.value;
      && |w.rows| == r.processed
      && |loaded.value.columns| <= |w.columns| && w.columns[..|loaded.value.columns|] == loaded.value.columns
      && VariantSkuColumn in w.columns && ImageSrcColumn in w.columns
  {
    if !HasCredentials(env) then MissingCredentials
    else if loaded.None? then ReadFailed
    else
      var table := loaded.value;
      if SkuColumn !in table.columns then MissingColumn(SkuColumn)
      else if ImageColumn !in table.columns then MissingColumn(ImageColumn)
      else
        var t := Loop(u, table.columns, table.rows, upload);
        var written := if t.outRows != [] then Some(Table(OutputColumns(table.columns), t.outRows)) else None;
        Finished(t.attempted, t.processed, written)
  }

  /** Every row of the written sheet fills exactly the written columns, with
      a non-empty `Variant SKU`. */
  lemma WrittenRowsFillColumns(env: Env, loaded: Option<Table>, upload: Request -> UploadOutcome,
                               u: UnicodeData)
    requires Run(env, loaded, upload, u).Finished?
    ensures var r := Run(env, loaded, upload, u);
      r.written.Some? ==>
        forall j :: 0 <= j < |r.written.value.rows| ==>
          && r.written.value.rows[j].Keys == (set c | c in r.written.value.columns)
          && VariantSkuColumn in r.written.value.rows[j]
          && r.written.value.rows[j][VariantSkuColumn] != ""
  {
    var table := loaded.value;
    var n := |table.rows|;
    var cols := table.columns;
    var t := Loop(u, cols, table.rows, upload);
    LoopMatchesRows(u, cols, table.rows, upload);
    var uf := UploadedFlags(u, cols, table.rows, upload);
    var up := Where(uf, n);
    var all := OutputColumns(cols);
    OutputColumnSet(cols);
    forall j | 0 <= j < |t.outRows|
      ensures t.outRows[j].Keys == set c | c in all
      ensures VariantSkuColumn in t.outRows[j] && t.outRows[j][VariantSkuColumn] != ""
    {
      var k := up[j];
      assert uf[k];
      var row := table.rows[k];
      var url := upload(RequestFor(u, cols, k, row)).secureUrl;
      assert t.outRows[j] == OutRow(cols, row, Cell(row, SkuColumn), url);
    }
  }

  /** What `main` reports and writes, described by the sheet: `attempted`
      counts the qualifying rows and `processed` the successful uploads; the
      written sheet has the source columns followed by the missing extra
      columns, and holds one row per successful upload, in sheet order,
      carrying that row's cells, SKU and transformed URL. */
  lemma RunMatchesRows(env: Env, loaded: Option<Table>, upload: Request -> UploadOutcome,
                       u: UnicodeData)
    ensures var r := Run(env, loaded, upload, u);
      r.Finished? ==>
        var rows := loaded.value.rows;
        var cols := loaded.value.columns;
        var up := Where(UploadedFlags(u, cols, rows, upload), |rows|);
        && r.attempted == |Where(AttemptedFlags(rows), |rows|)|
        && r.processed == |up|
        && (r.written.Some? ==>
              && r.written.value.columns
                 == cols + (if VariantSkuColumn in cols then [] else [VariantSkuColumn])
                         + (if ImageSrcColumn in cols then [] else [ImageSrcColumn])
              && |r.written.value.rows| == |up|
              && forall j :: 0 <= j < |up| ==>
                   r.written.value.rows[j]
                   == OutRow(cols, rows[up[j]], Cell(rows[up[j]], SkuColumn),
                             upload(RequestFor(u, cols, up[j], rows[up[j]])).secureUrl))
  {
    if Run(env, loaded, upload, u).Finished? {
      LoopMatchesRows(u, loaded.value.columns, loaded.value.rows, upload);
      OutputColumnsShape(loaded.value.columns);
    }
  }
}
