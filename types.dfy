/** The records the catalog tool passes between its parts. */
module Types {
  import opened Wrappers
  import opened Objects

  /**
   * A parsed `package.json`: its `name` field (the empty string when the
   * field is missing or falsy) and its top-level object-valued fields by
   * key; among them the dependency blocks, each an ordered object
   * dependency name -> declared version. Other fields are not read by the
   * tool and are not represented.
   */
  datatype Package = Package(name: string, blocks: map<string, Object<string>>)

  /** A manifest as read from disk: its resolved path, its text, and what the text parses to. */
  datatype Manifest = Manifest(filePath: string, text: string, data: Package)

  /** The outcome for one manifest: path, the content to write, and whether anything changed. */
  datatype Resolved = Resolved(path: string, context: string, isUpdate: bool)

  /** One named catalog chosen in the classification session. */
  datatype Category = Category(name: string, packages: seq<string>, dependencies: Object<string>)

  /**
   * The finalized catalog definition the reconciler consumes: all chosen
   * names, the combined group name, the merged name -> version mapping and,
   * optionally, the per-catalog breakdown.
   */
  datatype CatalogSet = CatalogSet(
    choice: seq<string>,
    name: string,
    dependencies: Object<string>,
    categories: Option<seq<Category>>)

  /** The record of one confirmed classification round. */
  datatype Round = Round(choice: seq<string>, name: string, dependencies: Object<string>)

  /** The workspace file to write back: its path, its new text and the catalog definition. */
  datatype WorkspaceUpdate = WorkspaceUpdate(path: string, context: string, catalogs: CatalogSet)
}
