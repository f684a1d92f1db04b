# gowiki: path router, page store and handlers

A model of the tutorial wiki server in `gowiki/wiki.go`. A wiki page is a
title and a body of bytes, kept as the file `<title>.txt` in the working
directory. Three HTTP handlers serve it: `/view/<title>`, `/edit/<title>`
and `/save/<title>`. Each handler first checks the request path against the
pattern `^/(edit|save|view)/([a-zA-Z0-9]+)$` and takes the title from the
second group.

The model has four modules:

- `Results` (`results.dfy`): `Option` and `Result` values. They stand for Go's `(value, error)` returns.
- `Router` (`router.dfy`): the pattern written out as a hand-made matcher (`MatchPath`: literal `/`, the alternatives edit, save and view tried left to right, literal `/`, a greedy scan of `[a-zA-Z0-9]`, then the end-of-text anchor). It also has `getTitle` (`GetTitle`) and a declarative predicate `IsValidPath`, which says the path is exactly `"/" + v + "/" + t` with `v` one of the three verbs and `t` a non-empty ASCII alphanumeric string. The lemmas prove the matcher equivalent to the predicate. They also prove that the split into verb and title is unique and that the verb is ignored. Finally, they prove that the anchors refuse any prefix and any trailing non-alphanumeric character, such as a newline, because Go's `$` without the `m` flag matches only at the end of the text.
- `Store` (`store.dfy`): `Page`, with the directory modelled as `map<string, seq<byte>>` keyed by `title + ".txt"`. `loadPage` is the pure function `LoadPage`. `Page.save` is the method `FileStore.Save`, which overwrites one entry of the `files` field of a `FileStore` object. `Saved` is the function that specifies the new directory.
- `Handlers` (`handlers.dfy`): the responses `NotFound`, `Redirect(url, code)` and `Render(template, page)`. `viewHandler` and `editHandler` are functions of the directory and the path, because they only read it. `saveHandler` is a method that modifies the `FileStore`.

The form body is taken directly as bytes. In Go a `string` is a byte sequence, so `[]byte(body)` changes no bytes. A path is a `seq<char>`.

A write of `Page.save` can fail. The model represents this with the parameter `ioFails`, which the environment chooses. A failed write leaves the directory unchanged and returns an error. `saveHandler` drops that error and redirects to the view either way, and the model shows this.

## Model

| member | source | states |
|---|---|---|
| `Router.Alternative` | gowiki/wiki.go:19 | the first group, an alternative of edit, save and view, consumes one of the three verbs and gives the rest of the text; when it fails, no verb is a prefix |
| `Router.Literal` | gowiki/wiki.go:19 | a literal of the pattern, such as `/`, matches exactly when it is a prefix of the text, which is then that literal followed by the rest |
| `Router.AlnumRun` | gowiki/wiki.go:19 | the greedy scan of `[a-zA-Z0-9]` gives the longest alphanumeric prefix: every character before it is in the class, and the character it stops at, if any, is not |
| `Router.MatchPath` | gowiki/wiki.go:19 | `validPath.FindStringSubmatch`: a match's whole-text group is the path itself, its first group is a known verb, and the path is `"/" + verb + "/" + title`; `MatchPathSound` and `MatchPathComplete` state the rest of its contract |
| `Router.AlnumRunCoversAll` | gowiki/wiki.go:19 | the greedy scan of `[a-zA-Z0-9]` reaches the end of the text exactly when every character is ASCII alphanumeric |
| `Router.MatchPathSound` | gowiki/wiki.go:19 | every match covers the whole path; the first group is one of the three verbs, the second a non-empty alphanumeric title, and `"/" + verb + "/" + title` is the path |
| `Router.MatchPathComplete` | gowiki/wiki.go:19 | every `"/" + v + "/" + t` with a known verb and a title is matched, with `v` and `t` as the groups |
| `Router.MatchPathIffValid` | gowiki/wiki.go:19 | the hand-made matcher accepts a path exactly when the declarative `IsValidPath` holds |
| `Router.ComposeUnique` | gowiki/wiki.go:19 | a path splits into verb and title in at most one way |
| `Router.SlashPositions` | gowiki/wiki.go:19 | in an accepted path the only slashes are the two literal ones, at positions 0 and 5 |
| `Router.AcceptedPathParts` | gowiki/wiki.go:19 | if `"/" + v + "/" + t` is accepted then `v` is one of edit, save, view and `t` is a title, so any other verb gives 404 |
| `Router.TrailingCharRejected` | gowiki/wiki.go:19 | appending a non-alphanumeric character (a newline, say) to an accepted path gives a rejected one: `$` is end of text |
| `Router.PrefixRejected` | gowiki/wiki.go:19 | putting any non-empty text before an accepted path gives a rejected one: `^` is start of text |
| `Router.GetTitle` | gowiki/wiki.go:35-42 | succeeds exactly when the path is valid; the title is then non-empty, alphanumeric, and the path is `"/" + v + "/" + title` for a known verb; otherwise the error is "Invalid Page Title" |
| `Router.GetTitleOfCompose` | gowiki/wiki.go:36-41 | on `"/" + v + "/" + t` with a known verb and a title, `getTitle` returns `t` (the second group) |
| `Router.GetTitleIgnoresVerb` | gowiki/wiki.go:36-41 | the verb group is ignored: `/<v1>/<t>` and `/<v2>/<t>` give the same title or the same rejection, so any handler accepts any of the three verbs |
| `Store.FileName` | gowiki/wiki.go:22 | the file of a page is named by its title followed by the suffix `.txt` |
| `Store.FileNameInjective` | gowiki/wiki.go:22 | two titles with the same file name `title + ".txt"` are equal |
| `Store.Saved` | gowiki/wiki.go:21-24 | after writing page `p`, the directory's names are the old names plus `p.title + ".txt"`, which holds `p.body` |
| `Store.LoadPage` | gowiki/wiki.go:26-33 | loading succeeds exactly when `title + ".txt"` exists, and the page then carries the requested title and the stored bytes of that file |
| `Store.FileStore.Save` | gowiki/wiki.go:21-24 | a successful write overwrites exactly the entry `p.title + ".txt"` with `p.body`; a failed write returns an error and changes nothing |
| `Store.LoadAfterSave` | gowiki/wiki.go:21-33 | after saving `(t, B)`, loading `t` gives the page with title `t` and body `B`, whatever was stored before |
| `Store.SaveTouchesOneFile` | gowiki/wiki.go:22-23 | saving a page leaves the presence and content of every other file unchanged |
| `Store.LoadOtherAfterSave` | gowiki/wiki.go:21-33 | saving one title does not change what loading any other title returns |
| `Store.SaveOverwrites` | gowiki/wiki.go:23 | the last write wins: saving the same title twice leaves only the second body |
| `Handlers.ViewHandler` | gowiki/wiki.go:44-55 | rejected path gives NotFound whatever the store holds; a redirect happens only when the file is absent and is a 302 to `/edit/<title>`, a path with the same title; a render uses the "view" template and exactly the loaded page |
| `Handlers.EditHandler` | gowiki/wiki.go:57-67 | rejected path gives NotFound; otherwise always the "edit" template on the requested title, with the stored body or an empty one |
| `Handlers.SaveHandler` | gowiki/wiki.go:69-78 | rejected path gives NotFound and leaves the store unchanged; otherwise always a 302 redirect to `/view/<title>`, even when the write fails; on a successful write the store becomes the old store with `<title>.txt` (re)placed by the body, and on a failed write it is unchanged |
| `Handlers.ViewMissingRedirectsToEdit` | gowiki/wiki.go:49-53 | viewing a page whose file is absent redirects with 302 to `/edit/<title>` and renders nothing |
| `Handlers.ViewExistingRenders` | gowiki/wiki.go:49-54 | viewing a stored page renders "view" with the stored body |
| `Handlers.EditMissingIsBlank` | gowiki/wiki.go:62-66 | editing an absent page renders "edit" on the page `(title, empty body)`; the handler is a function of the store, so it creates no file |
| `Handlers.EditExistingRenders` | gowiki/wiki.go:62-66 | editing a stored page renders "edit" with the stored body |
| `Handlers.RedirectTargetsAccepted` | gowiki/wiki.go:44-78 | the redirect targets `/edit/<t>` and `/view/<t>` are accepted by the router and carry the same title `t` |
| `Handlers.SaveThenView` | gowiki/wiki.go:69-78 | after a successful save of body `B` under `t`, a view of `t` through any verb renders exactly `B` |
| `Handlers.SaveThenViewRequests` | gowiki/wiki.go:69-78 | POST `/save/<t>` followed by GET `/view/<t>` through the handlers gives the redirect to the view and then the render of the saved body |

## Left out

- `main`, route registration with `http.HandleFunc` and `ListenAndServe`/`log.Fatal` (gowiki/wiki.go:87-92): network-server plumbing. The prefix routing of `http.HandleFunc` is not modelled. Each handler is applied to the whole path, which matches the source because each handler checks the full pattern itself.
- `html/template` parsing and execution, including HTML escaping (gowiki/wiki.go:17-18, 80-85): a foreign library. Rendering is the value `Render(template, page)`. The 500 response on a template error is not modelled.
- File-system semantics beyond a name-to-bytes map: the mode `0600`, read errors other than "file absent", and partial or truncating writes. A failed write is modelled as one that changes nothing.
- `request.FormValue("body")` form decoding (gowiki/wiki.go:74): the decoded body is a parameter of `SaveHandler`.
- The error texts of `ioutil.ReadFile`/`WriteFile` are written as plain strings. No handler inspects them.
- Concurrent requests, including the last-write-wins race between two saves of one title: the model is sequential.
- General regular-expression matching: only this one pattern is modelled, as a dedicated matcher.
- Directory layout: pages are stored as `<title>.txt` in the working directory, and the model has only that flat directory.
