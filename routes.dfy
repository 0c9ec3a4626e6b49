/** The internal addresses the server writes into pages (epubserver.py:237, 249, 251, 256-258):
    every route that carries the password does so as a quoted `pass` query parameter. */
module Routes {
  import opened Wrappers
  import opened Encoding

  /** The password suffix of a `/read` route: empty when no password is configured. */
  function PassQuery(password: Option<string>): string
  {
    match password
    case None => ""
    case Some(p) => "&pass=" + Quote(p)
  }

  /** `/read?file=<quote(file)>&page=<page>` with the password suffix. */
  function ReadRoute(file: string, page: int, password: Option<string>): string
  {
    "/read?file=" + Quote(file) + "&page=" + IntToString(page) + PassQuery(password)
  }

  /** `/asset?file=<quote(file)>&path=<quote(name)>`. */
  function AssetRoute(file: string, name: string): string
  {
    "/asset?file=" + Quote(file) + "&path=" + Quote(name)
  }

  /** The target of the footer's Back link: `/`, or `/pass=<quote(password)>` with a password
      (the source writes no `?` before `pass`). */
  function BackRoute(password: Option<string>): string
  {
    match password
    case None => "/"
    case Some(p) => "/pass=" + Quote(p)
  }
}
