/**
 * The three HTTP handlers of the wiki. Each one first runs `getTitle` on the
 * request path; the response is a value: 404, a redirect, or the rendering
 * of a named template with a page.
 */
module Handlers {
  import opened Results
  import opened Router
  import opened Store

  /** `http.StatusFound`. */
  const StatusFound := 302

  datatype Response =
    | NotFound                                 // `http.NotFound`: status 404
    | Redirect(url: string, code: int)         // `http.Redirect`
    | Render(template: string, page: Page)     // `renderTemplate(w, template, page)`

  /** `viewHandler`: show the page, or send the client to its editor when it does not exist. */
  function ViewHandler(fs: Files, path: string): (r: Response)
    ensures r.NotFound? <==> !IsValidPath(path)
    ensures r.Redirect? ==> r.code == StatusFound && GetTitle(r.url) == GetTitle(path)
    ensures r.Redirect? ==> r.url == "/edit/" + GetTitle(path).value && FileName(GetTitle(path).value) !in fs
    ensures r.Render? ==> r.template == "view" && Ok(r.page) == LoadPage(fs, GetTitle(path).value)
  {
    match GetTitle(path)
    case Err(_) => NotFound
    case Ok(title) =>
      GetTitleOfCompose("edit", title);
      assert "/edit/" + title == Compose("edit", title);
      match LoadPage(fs, title)
      case Err(_) => Redirect("/edit/" + title, StatusFound)
      case Ok(page) => Render("view", page)
  }

  /** `editHandler`: show the editor on the stored page, or on a blank page of that title. */
  function EditHandler(fs: Files, path: string): (r: Response)
    ensures r.NotFound? <==> !IsValidPath(path)
    ensures !r.NotFound? ==> r.Render? && r.template == "edit"
    ensures r.Render? ==> Ok(r.page.title) == GetTitle(path)
    ensures r.Render? ==> r.page.body == if FileName(r.page.title) in fs then fs[FileName(r.page.title)] else []
  {
    match GetTitle(path)
    case Err(_) => NotFound
    case Ok(title) =>
      match LoadPage(fs, title)
      case Err(_) => Render("edit", Page(title, []))
      case Ok(page) => Render("edit", page)
  }

  /**
   * `saveHandler`: store the submitted `body` form value under the title and
   * redirect to the view. The error of `Page.save` is dropped, so the
   * redirect is sent whether or not the write succeeded.
   */
  method SaveHandler(store: FileStore, path: string, body: seq<byte>, ioFails: bool) returns (r: Response)
    modifies store
    ensures r.NotFound? <==> !IsValidPath(path)
    ensures !IsValidPath(path) ==> store.files == old(store.files)
    ensures IsValidPath(path) ==> r == Redirect("/view/" + GetTitle(path).value, StatusFound)
    ensures IsValidPath(path) ==>
      store.files == if ioFails then old(store.files) else Saved(old(store.files), Page(GetTitle(path).value, body))
  {
    var title := GetTitle(path);
    if title.Err? {
      return NotFound;
    }
    var page := Page(title.value, body);
    var _ := store.Save(page, ioFails);
    r := Redirect("/view/" + title.value, StatusFound);
  }

  // ---------------------------------------------------------------------
  // Properties of the handlers
  // ---------------------------------------------------------------------

  /** Viewing a missing page answers 302 to `/edit/<title>` and renders nothing. */
  lemma ViewMissingRedirectsToEdit(fs: Files, v: string, t: string)
    requires v in Verbs && IsTitle(t) && FileName(t) !in fs
    ensures ViewHandler(fs, Compose(v, t)) == Redirect("/edit/" + t, StatusFound)
  {
    GetTitleOfCompose(v, t);
  }

  /** Viewing a stored page renders the "view" template with the stored body. */
  lemma ViewExistingRenders(fs: Files, v: string, t: string)
    requires v in Verbs && IsTitle(t) && FileName(t) in fs
    ensures ViewHandler(fs, Compose(v, t)) == Render("view", Page(t, fs[FileName(t)]))
  {
    GetTitleOfCompose(v, t);
  }

  /** Editing a missing page renders the "edit" template on a page with that title and no body. */
  lemma EditMissingIsBlank(fs: Files, v: string, t: string)
    requires v in Verbs && IsTitle(t) && FileName(t) !in fs
    ensures EditHandler(fs, Compose(v, t)) == Render("edit", Page(t, []))
  {
    GetTitleOfCompose(v, t);
  }

  /** Editing a stored page renders the "edit" template with the stored body. */
  lemma EditExistingRenders(fs: Files, v: string, t: string)
    requires v in Verbs && IsTitle(t) && FileName(t) in fs
    ensures EditHandler(fs, Compose(v, t)) == Render("edit", Page(t, fs[FileName(t)]))
  {
    GetTitleOfCompose(v, t);
  }

  /** Each redirect the handlers send leads to a path the router accepts, with the same title. */
  lemma RedirectTargetsAccepted(t: string)
    requires IsTitle(t)
    ensures GetTitle("/edit/" + t) == Ok(t) && GetTitle("/view/" + t) == Ok(t)
  {
    assert "/edit/" + t == Compose("edit", t);
    assert "/view/" + t == Compose("view", t);
    GetTitleOfCompose("edit", t);
    GetTitleOfCompose("view", t);
  }

  /** A successful save followed by a view, through any verbs, renders exactly the saved body. */
  lemma SaveThenView(fs: Files, v: string, t: string, body: seq<byte>)
    requires v in Verbs && IsTitle(t)
    ensures ViewHandler(Saved(fs, Page(t, body)), Compose(v, t)) == Render("view", Page(t, body))
  {
    ViewExistingRenders(Saved(fs, Page(t, body)), v, t);
  }

  /** The same, through the handlers themselves: POST `/save/<t>`, then GET `/view/<t>`. */
  method SaveThenViewRequests(store: FileStore, t: string, body: seq<byte>) returns (saved: Response, viewed: Response)
    requires IsTitle(t)
    modifies store
    ensures saved == Redirect("/view/" + t, StatusFound)
    ensures viewed == Render("view", Page(t, body))
    ensures store.files == Saved(old(store.files), Page(t, body))
  {
    assert "/save/" + t == Compose("save", t);
    GetTitleOfCompose("save", t);
    saved := SaveHandler(store, "/save/" + t, body, false);
    assert "/view/" + t == Compose("view", t);
    SaveThenView(old(store.files), "view", t, body);
    viewed := ViewHandler(store.files, "/view/" + t);
  }
}
