/** What `upload_scan` prepares before it posts the scan: the name of the
    uploaded file, and the mapping from field roles to column positions,
    resolved against the columns of the file actually sent; plus the form's
    refusal to go on without a scan name. */
module Submission {
  import opened Wrappers
  import opened Strings
  import opened Columns

  /** The column added when the cost is fixed at 1. */
  const FixedCostColumn := "__fixed_cost"
  /** The choice that leaves an optional role out of the mapping. */
  const NoneSelected := "(none)"
  const FixedCostSuffix := "_fixed_cost.csv"
  const CsvExtension := ".csv"

  /** Where the required `cost` field comes from. */
  datatype CostSource = FixedCost | CostColumn(column: string)

  /** The form's column choices. The optional ones hold `NoneSelected` when
      left out. */
  datatype Roles = Roles(
    idColumn: string,
    titleColumn: string,
    cost: CostSource,
    stockQuantityColumn: string,
    supplierImageColumn: string)

  /** The `mapping` object sent with the scan. */
  datatype Mapping = Mapping(
    id: nat,
    cost: nat,
    customColumns: seq<nat>,
    stockQuantity: Option<nat>,
    supplierImage: Option<nat>)

  datatype ScanOptions = ScanOptions(marketplaceId: string, name: string)

  /** Everything of the upload but the file's bytes. */
  datatype Upload = Upload(fileName: string, mapping: Mapping, options: ScanOptions)

  datatype UploadError =
    | ScanNameRequired
    | ColumnNotFound(column: string)

  // ---------------------------------------------------------------------
  // The uploaded file's name.

  /** `name.lower().endswith(".csv")`. Folding ASCII letters only is exact
      here: no other character lower-cases to one of `.`, `c`, `s`, `v`. */
  predicate HasCsvExtension(name: string) {
    EndsWith(Lower(name), CsvExtension)
  }

  /** The name given to the rewritten file in fixed-cost mode: a `.csv`
      extension in any letter case is dropped, then `_fixed_cost.csv` added. */
  function FixedCostFileName(name: string): (r: string)
    ensures EndsWith(r, FixedCostSuffix)
    ensures HasCsvExtension(name) ==>
      |name| >= 4 && r[..|r| - |FixedCostSuffix|] + name[|name| - 4..] == name
    ensures !HasCsvExtension(name) ==> r[..|r| - |FixedCostSuffix|] == name
  {
    (if HasCsvExtension(name) then name[..|name| - 4] else name) + FixedCostSuffix
  }

  /** The extension test spelled out letter by letter. */
  lemma CsvExtensionAnyCase(name: string)
    ensures HasCsvExtension(name) <==>
      && |name| >= 4
      && name[|name| - 4] == '.'
      && name[|name| - 3] in {'c', 'C'}
      && name[|name| - 2] in {'s', 'S'}
      && name[|name| - 1] in {'v', 'V'}
  {
    if |name| >= 4 {
      var tail := Lower(name)[|name| - 4..];
      assert tail[0] == LowerChar(name[|name| - 4]);
      assert tail[1] == LowerChar(name[|name| - 3]);
      assert tail[2] == LowerChar(name[|name| - 2]);
      assert tail[3] == LowerChar(name[|name| - 1]);
      if HasCsvExtension(name) {
        assert tail == ".csv";
      } else {
        assert tail != ".csv";
      }
    }
  }

  /** The new name is itself recognised as a CSV file name. */
  lemma FixedCostFileNameIsCsv(name: string)
    ensures HasCsvExtension(FixedCostFileName(name))
  {
    var stem := if HasCsvExtension(name) then name[..|name| - 4] else name;
    assert FixedCostFileName(name) == (stem + "_fixed_cost") + CsvExtension;
    CsvAppended(stem + "_fixed_cost");
  }

  /** Appending `.csv` gives a name with a CSV extension. */
  lemma CsvAppended(t: string)
    ensures HasCsvExtension(t + CsvExtension)
  {
    var u := t + CsvExtension;
    var l := Lower(u);
    assert l[|t|] == LowerChar(u[|t|]) == '.';
    assert l[|t| + 1] == LowerChar(u[|t| + 1]) == 'c';
    assert l[|t| + 2] == LowerChar(u[|t| + 2]) == 's';
    assert l[|t| + 3] == LowerChar(u[|t| + 3]) == 'v';
    assert l[|l| - 4..] == CsvExtension;
  }

  // ---------------------------------------------------------------------
  // The mapping.

  /** The columns of the file actually uploaded: the header as read, with
      `__fixed_cost` assigned in fixed-cost mode. */
  function WorkingColumns(header: seq<string>, cost: CostSource): (r: seq<string>)
    ensures cost.CostColumn? ==> r == header
    ensures cost.FixedCost? ==> FixedCostColumn in r && |header| <= |r| && r[..|header|] == header
    ensures cost.FixedCost? ==> |r| == |header| + (if FixedCostColumn in header then 0 else 1)
  {
    if cost.FixedCost? then SetColumn(header, FixedCostColumn) else header
  }

  /** The column name the `cost` role is looked up under. */
  function CostColumnName(cost: CostSource): (r: string) {
    match cost
    case FixedCost => FixedCostColumn
    case CostColumn(c) => c
  }

  /** `working_cols.index(name)`, with `ValueError` as an error value. */
  function Resolve(cols: seq<string>, name: string): (r: Result<nat, UploadError>)
    ensures r.Success? <==> name in cols
    ensures r.Success? ==> IsFirstIndex(cols, name, r.value)
    ensures r.Failure? ==> r.error == ColumnNotFound(name)
  {
    match IndexOf(cols, name)
    case Some(i) => Success(i)
    case None => Failure(ColumnNotFound(name))
  }

  /** An optional role: left out when not selected, otherwise resolved. */
  function ResolveOptional(cols: seq<string>, choice: string): (r: Result<Option<nat>, UploadError>)
    ensures r.Success? <==> choice == NoneSelected || choice in cols
    ensures r.Success? ==> (r.value.Some? <==> choice != NoneSelected)
    ensures r.Success? && r.value.Some? ==> IsFirstIndex(cols, choice, r.value.value)
    ensures r.Failure? ==> r.error == ColumnNotFound(choice)
  {
    if choice == NoneSelected then Success(None)
    else
      var i :- Resolve(cols, choice);
      Success(Some(i))
  }

  /** The names looked up, in the order Python evaluates the lookups. */
  function LookedUp(roles: Roles): (r: seq<string>) {
    [roles.idColumn, CostColumnName(roles.cost), roles.titleColumn]
    + (if roles.stockQuantityColumn != NoneSelected then [roles.stockQuantityColumn] else [])
    + (if roles.supplierImageColumn != NoneSelected then [roles.supplierImageColumn] else [])
  }

  /** The `mapping` built in `upload_scan`. It fails exactly when a name it
      looks up is missing from the working columns, naming the first such
      one; otherwise every index is the first position of its column. */
  function BuildMapping(header: seq<string>, roles: Roles): (r: Result<Mapping, UploadError>)
    ensures var w := WorkingColumns(header, roles.cost);
            r.Success? ==>
              && IsFirstIndex(w, roles.idColumn, r.value.id)
              && IsFirstIndex(w, CostColumnName(roles.cost), r.value.cost)
              && |r.value.customColumns| == 1
              && IsFirstIndex(w, roles.titleColumn, r.value.customColumns[0])
              && (r.value.stockQuantity.Some? <==> roles.stockQuantityColumn != NoneSelected)
              && (r.value.stockQuantity.Some? ==> IsFirstIndex(w, roles.stockQuantityColumn, r.value.stockQuantity.value))
              && (r.value.supplierImage.Some? <==> roles.supplierImageColumn != NoneSelected)
              && (r.value.supplierImage.Some? ==> IsFirstIndex(w, roles.supplierImageColumn, r.value.supplierImage.value))
    ensures var w := WorkingColumns(header, roles.cost);
            r.Failure? <==> exists n :: n in LookedUp(roles) && n !in w
  {
    var w := WorkingColumns(header, roles.cost);
    var id :- Resolve(w, roles.idColumn);
    var cost :- Resolve(w, CostColumnName(roles.cost));
    var title :- Resolve(w, roles.titleColumn);
    var stock :- ResolveOptional(w, roles.stockQuantityColumn);
    var image :- ResolveOptional(w, roles.supplierImageColumn);
    Success(Mapping(id, cost, [title], stock, image))
  }

  /** The error names the first looked-up column that is missing. */
  lemma BuildMappingReportsFirstMissing(header: seq<string>, roles: Roles)
    requires BuildMapping(header, roles).Failure?
    ensures var w := WorkingColumns(header, roles.cost);
            var names := LookedUp(roles);
            exists k :: 0 <= k < |names| && BuildMapping(header, roles).error == ColumnNotFound(names[k])
                        && names[k] !in w && forall j :: 0 <= j < k ==> names[j] in w
  {
    var w := WorkingColumns(header, roles.cost);
    var names := LookedUp(roles);
    var e := BuildMapping(header, roles).error;
    var stock := roles.stockQuantityColumn != NoneSelected;
    assert names[0] == roles.idColumn && names[1] == CostColumnName(roles.cost) && names[2] == roles.titleColumn;
    if roles.idColumn !in w {
      assert e == ColumnNotFound(names[0]);
    } else if CostColumnName(roles.cost) !in w {
      assert e == ColumnNotFound(names[1]);
    } else if roles.titleColumn !in w {
      assert e == ColumnNotFound(names[2]);
    } else if stock && roles.stockQuantityColumn !in w {
      assert names[3] == roles.stockQuantityColumn;
      assert e == ColumnNotFound(names[3]);
    } else {
      var k := if stock then 4 else 3;
      assert names[k] == roles.supplierImageColumn;
      assert e == ColumnNotFound(names[k]);
    }
  }

  /** Without a `__fixed_cost` column in the file, fixed-cost mode uploads
      the original columns followed by `__fixed_cost`, and `cost` points at
      that last column. */
  lemma FixedCostAppendsColumn(header: seq<string>, roles: Roles)
    requires roles.cost.FixedCost? && FixedCostColumn !in header
    ensures WorkingColumns(header, roles.cost) == header + [FixedCostColumn]
    ensures BuildMapping(header, roles).Success? ==> BuildMapping(header, roles).value.cost == |header|
  {
    var w := WorkingColumns(header, roles.cost);
    if BuildMapping(header, roles).Success? {
      assert IsFirstIndex(w, FixedCostColumn, |header|);
      FirstIndexUnique(w, FixedCostColumn, |header|, BuildMapping(header, roles).value.cost);
    }
  }

  /** With a `__fixed_cost` column already in the file, fixed-cost mode
      overwrites it in place: the columns are unchanged and `cost` points at
      its first occurrence. */
  lemma FixedCostOverwritesInPlace(header: seq<string>, roles: Roles)
    requires roles.cost.FixedCost? && FixedCostColumn in header
    ensures WorkingColumns(header, roles.cost) == header
    ensures BuildMapping(header, roles).Success? ==>
      Some(BuildMapping(header, roles).value.cost) == IndexOf(header, FixedCostColumn)
  {
    if BuildMapping(header, roles).Success? {
      var i := IndexOf(header, FixedCostColumn).value;
      FirstIndexUnique(header, FixedCostColumn, i, BuildMapping(header, roles).value.cost);
    }
  }

  /** Every role other than `cost` gets the same index whether the cost is
      fixed or read from a column of the file: the added column displaces
      nothing. When the chosen columns are all in the header, both modes
      succeed. */
  lemma FixedCostKeepsRoleIndices(header: seq<string>, roles: Roles, costColumn: string)
    requires roles.cost.FixedCost? && costColumn in header
    requires roles.idColumn in header && roles.titleColumn in header
    requires roles.stockQuantityColumn == NoneSelected || roles.stockQuantityColumn in header
    requires roles.supplierImageColumn == NoneSelected || roles.supplierImageColumn in header
    ensures var fixed := BuildMapping(header, roles);
            var plain := BuildMapping(header, roles.(cost := CostColumn(costColumn)));
            && fixed.Success? && plain.Success?
            && fixed.value.id == plain.value.id
            && fixed.value.customColumns == plain.value.customColumns
            && fixed.value.stockQuantity == plain.value.stockQuantity
            && fixed.value.supplierImage == plain.value.supplierImage
  {
    var w := WorkingColumns(header, roles.cost);
    var fixed := BuildMapping(header, roles);
    var plain := BuildMapping(header, roles.(cost := CostColumn(costColumn)));
    assert fixed.Success?;
    assert plain.Success?;
    SameFirstIndex(header, w, roles.idColumn, fixed.value.id, plain.value.id);
    SameFirstIndex(header, w, roles.titleColumn, fixed.value.customColumns[0], plain.value.customColumns[0]);
    if roles.stockQuantityColumn != NoneSelected {
      SameFirstIndex(header, w, roles.stockQuantityColumn,
                     fixed.value.stockQuantity.value, plain.value.stockQuantity.value);
    }
    if roles.supplierImageColumn != NoneSelected {
      SameFirstIndex(header, w, roles.supplierImageColumn,
                     fixed.value.supplierImage.value, plain.value.supplierImage.value);
    }
  }

  /** A name of the header is found first at the same place in the header and
      in any extension of it. */
  lemma SameFirstIndex(header: seq<string>, w: seq<string>, name: string, i: int, j: int)
    requires |header| <= |w| && w[..|header|] == header
    requires IsFirstIndex(w, name, i) && IsFirstIndex(header, name, j)
    ensures i == j
  {
    assert w[j] == header[j];
  }

  // ---------------------------------------------------------------------
  // The scan-name guard and the whole preparation.

  /** The form goes on only when the scan name is not blank. */
  predicate ScanNameAccepted(scanName: string) {
    Strip(scanName) != []
  }

  /** A name is accepted exactly when it holds a non-whitespace character. */
  lemma ScanNameAcceptedIffNotBlank(scanName: string)
    ensures ScanNameAccepted(scanName) <==> exists k :: 0 <= k < |scanName| && !IsSpace(scanName[k])
  {
    StripEmptyIffAllSpace(scanName);
  }

  /** The guard, then the body of `upload_scan` up to the request: file
      name, mapping and options. The scan name is sent as typed, not
      stripped. */
  function PrepareUpload(fileName: string, header: seq<string>, roles: Roles,
                         scanName: string, marketplaceId: string): (r: Result<Upload, UploadError>)
    ensures !ScanNameAccepted(scanName) ==> r == Failure(ScanNameRequired)
    ensures ScanNameAccepted(scanName) ==>
      (r.Success? <==> forall n :: n in LookedUp(roles) ==> n in WorkingColumns(header, roles.cost))
    ensures r.Failure? && r.error.ColumnNotFound? ==> r.error.column !in WorkingColumns(header, roles.cost)
    ensures r.Success? ==> r.value.options == ScanOptions(marketplaceId, scanName)
    ensures r.Success? && roles.cost.CostColumn? ==> r.value.fileName == fileName
    ensures r.Success? && roles.cost.FixedCost? ==> EndsWith(r.value.fileName, FixedCostSuffix)
    ensures r.Success? && roles.cost.FixedCost? ==> r.value.fileName == FixedCostFileName(fileName)
    ensures r.Success? ==> BuildMapping(header, roles).Success? && r.value.mapping == BuildMapping(header, roles).value
    ensures ScanNameAccepted(scanName) && r.Failure? ==>
      BuildMapping(header, roles).Failure? && r.error == BuildMapping(header, roles).error
  {
    if !ScanNameAccepted(scanName) then Failure(ScanNameRequired)
    else
      match BuildMapping(header, roles)
      case Failure(e) =>
        BuildMappingReportsFirstMissing(header, roles);
        Failure(e)
      case Success(mapping) =>
        var name := if roles.cost.FixedCost? then FixedCostFileName(fileName) else fileName;
        Success(Upload(name, mapping, ScanOptions(marketplaceId, scanName)))
  }

  /** Every position in a prepared mapping holds the column chosen for its
      role in the columns of the file actually uploaded, so none is out of
      range. */
  lemma PreparedIndicesPointAtChosenColumns(fileName: string, header: seq<string>, roles: Roles,
                                            scanName: string, marketplaceId: string)
    requires PrepareUpload(fileName, header, roles, scanName, marketplaceId).Success?
    ensures var m := PrepareUpload(fileName, header, roles, scanName, marketplaceId).value.mapping;
            var w := WorkingColumns(header, roles.cost);
            && m.id < |w| && w[m.id] == roles.idColumn
            && m.cost < |w| && w[m.cost] == CostColumnName(roles.cost)
            && |m.customColumns| == 1 && m.customColumns[0] < |w| && w[m.customColumns[0]] == roles.titleColumn
            && (m.stockQuantity.Some? ==> m.stockQuantity.value < |w| && w[m.stockQuantity.value] == roles.stockQuantityColumn)
            && (m.supplierImage.Some? ==> m.supplierImage.value < |w| && w[m.supplierImage.value] == roles.supplierImageColumn)
  {
  }
}
