/** Fixed data shared by the tool: the dependency block kinds it examines and the built-in catalog names. */
module Constants {

  /** The dependency blocks of a package manifest the tool reads and rewrites, in the order it visits them. */
  const DependencyTypes: seq<string> := ["dependencies", "devDependencies", "optionalDependencies"]

  /** Prefix of a dependency version that refers to a workspace catalog. */
  const CatalogPlaceholder: string := "catalog:"

  datatype DefaultCatalog = DefaultCatalog(name: string, descriptions: string)

  /** The catalog names offered before any custom name. */
  const DefaultCatalogs: seq<DefaultCatalog> := [
    DefaultCatalog("prod", "Runtime production dependencies."),
    DefaultCatalog("dev", "Runtime development dependencies."),
    DefaultCatalog("lint", "Packages for linting/formatting (e.g., eslint, knip)."),
    DefaultCatalog("config", "Packages for configuration."),
    DefaultCatalog("types", "Packages for type checking and definitions."),
    DefaultCatalog("build", "Packages used for building the project (e.g., vite, rolldown)."),
    DefaultCatalog("test", "Packages used for testing (e.g., vitest, playwright, msw)."),
    DefaultCatalog("script", "Packages used for scripting tasks (e.g., tsx, tinyglobby, cpx)."),
    DefaultCatalog("frontend", "Packages for frontend development (e.g., vue, pinia)."),
    DefaultCatalog("backend", "Packages for the backend server."),
    DefaultCatalog("inlined", "Packages that are included directly in the final bundle.")
  ]
}
