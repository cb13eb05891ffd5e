/** The part of `java.net.URI` the core looks at: its scheme and its string form. */
module Uris {
  import opened Outcomes

  /** A URI; `scheme` is None for a relative URI, whose `getScheme()` is null. */
  datatype Uri = Uri(scheme: Option<string>, text: string)

  /** The closed set of ways the core treats a URI. */
  datatype Scheme = FileScheme | JarScheme | JrtScheme | OtherScheme(name: string) | NoScheme

  /** The `switch (scheme)` of `pathOf` and `filesystem`: an exact, case-sensitive match. */
  function SchemeOf(uri: Uri): (s: Scheme)
    ensures s == FileScheme <==> uri.scheme == Some("file")
    ensures s == JarScheme <==> uri.scheme == Some("jar")
    ensures s == JrtScheme <==> uri.scheme == Some("jrt")
    ensures s == NoScheme <==> uri.scheme.None?
    ensures s.OtherScheme? ==> uri.scheme == Some(s.name)
  {
    match uri.scheme
    case None => NoScheme
    case Some(name) =>
      if name == "file" then FileScheme
      else if name == "jar" then JarScheme
      else if name == "jrt" then JrtScheme
      else OtherScheme(name)
  }
}
