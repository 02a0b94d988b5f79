/**
 * The import validator and the export document of src/lib/utils/json.ts, at the level of an
 * already decoded document: every field the validator tests may be absent.
 */
module Json {
  import opened Types

  /** The `preflight` block of an export. */
  datatype Header = Header(version: Option<string>, exportedAt: string)

  /** A decoded export document; `None` is a missing (undefined or null) field. */
  datatype Document = Document(
    preflight: Option<Header>,
    workspace: Option<Workspace>,
    templates: Option<seq<PreflightTemplate>>,
    items: Option<seq<ChecklistItem>>,
    records: Option<seq<PreflightRecord>>)

  /** What a successful import hands to the workspace store. */
  datatype ImportedData = ImportedData(
    workspace: Workspace,
    templates: seq<PreflightTemplate>,
    items: seq<ChecklistItem>,
    records: seq<PreflightRecord>)

  const FormatVersion: string := "1.0"
  const VersionError: string := "Invalid or unsupported Preflight JSON version"
  const ShapeError: string := "Malformed Preflight data: Missing workspace, templates, or items"

  /** The header check: a `preflight` block whose version is exactly the format version. */
  predicate VersionOk(d: Document)
  {
    d.preflight.Some? && d.preflight.value.version == Some(FormatVersion)
  }

  /** The shape check: workspace, templates and items are present (an empty array is truthy). */
  predicate ShapeOk(d: Document)
  {
    d.workspace.Some? && d.templates.Some? && d.items.Some?
  }

  /** `importFromJson` after `JSON.parse`. */
  function ImportFromJson(d: Document): (r: Result<ImportedData>)
    ensures r.Ok? <==> VersionOk(d) && ShapeOk(d)
    ensures !VersionOk(d) ==> r == Err(VersionError)
    ensures VersionOk(d) && !ShapeOk(d) ==> r == Err(ShapeError)
    ensures r.Ok? ==>
              && r.value.workspace == d.workspace.value
              && r.value.templates == d.templates.value
              && r.value.items == d.items.value
              && r.value.records == (if d.records.Some? then d.records.value else [])
  {
    if d.preflight.None? || d.preflight.value.version != Some(FormatVersion) then
      Err(VersionError)
    else if d.workspace.None? || d.templates.None? || d.items.None? then
      Err(ShapeError)
    else
      Ok(ImportedData(d.workspace.value, d.templates.value, d.items.value,
                      if d.records.Some? then d.records.value else []))
  }

  /** The object `exportToJson` serialises; `exportedAt` is the formatted export time. */
  function ExportDocument(workspace: Workspace, templates: seq<PreflightTemplate>, items: seq<ChecklistItem>,
                          records: seq<PreflightRecord>, exportedAt: string): (d: Document)
    ensures VersionOk(d) && ShapeOk(d)
  {
    Document(Some(Header(Some(FormatVersion), exportedAt)), Some(workspace), Some(templates), Some(items), Some(records))
  }

  /** Importing what was exported gives back the four collections unchanged. */
  lemma ExportImportRoundTrip(workspace: Workspace, templates: seq<PreflightTemplate>, items: seq<ChecklistItem>,
                              records: seq<PreflightRecord>, exportedAt: string)
    ensures ImportFromJson(ExportDocument(workspace, templates, items, records, exportedAt))
            == Ok(ImportedData(workspace, templates, items, records))
  {
  }

  /** A document whose records are missing imports with no records. */
  lemma MissingRecordsDefaultToEmpty(d: Document)
    requires VersionOk(d) && ShapeOk(d) && d.records.None?
    ensures ImportFromJson(d).Ok? && ImportFromJson(d).value.records == []
  {
  }
}
