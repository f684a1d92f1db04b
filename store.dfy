/**
 * The page store: a `Page` is a title and a body of bytes, persisted as the
 * file `<title>.txt`. The working directory is modelled as a map from file
 * names to contents; `loadPage` reads it and `Page.save` overwrites one entry.
 */
module Store {
  import opened Results

  newtype byte = x: int | 0 <= x < 256

  datatype Page = Page(title: string, body: seq<byte>)

  /** The files of the working directory, by name. */
  type Files = map<string, seq<byte>>

  /** The file that holds the page titled `title`. */
  function FileName(title: string): (name: string)
    ensures title <= name && name[|title|..] == ".txt"
  {
    title + ".txt"
  }

  /** Distinct titles are stored in distinct files. */
  lemma FileNameInjective(a: string, b: string)
    requires FileName(a) == FileName(b)
    ensures a == b
  {
    assert |a| == |b|;
    assert a == FileName(a)[..|a|];
    assert b == FileName(b)[..|b|];
  }

  /** The directory after `p` has been written: only `p`'s file is (re)placed. */
  function Saved(fs: Files, p: Page): (fs': Files)
    ensures fs'.Keys == fs.Keys + {FileName(p.title)}
    ensures fs'[FileName(p.title)] == p.body
  {
    fs[FileName(p.title) := p.body]
  }

  /**
   * `loadPage`: reads `<title>.txt`; an absent file is the one read error
   * represented, and it yields no page.
   */
  function LoadPage(fs: Files, title: string): (r: Result<Page>)
    ensures r.Ok? <==> FileName(title) in fs
    ensures r.Ok? ==> r.value.title == title && r.value.body == fs[FileName(title)]
  {
    var name := FileName(title);
    if name in fs then Ok(Page(title, fs[name]))
    else Err("open " + name + ": no such file or directory")
  }

  /** The file system of one wiki process. */
  class FileStore {
    var files: Files

    constructor (initial: Files)
      ensures files == initial
    {
      files := initial;
    }

    /**
     * `Page.save`: writes `p.body` to `<p.title>.txt`, replacing any earlier
     * content. `ioFails` stands for the environment refusing the write; the
     * directory is then left as it was and an error is returned.
     */
    method Save(p: Page, ioFails: bool) returns (err: Option<string>)
      modifies this
      ensures err.None? <==> !ioFails
      ensures files == if ioFails then old(files) else Saved(old(files), p)
    {
      if ioFails {
        err := Some("open " + FileName(p.title) + ": write failed");
      } else {
        files := files[FileName(p.title) := p.body];
        err := None;
      }
    }
  }

  // ---------------------------------------------------------------------
  // Properties of the store
  // ---------------------------------------------------------------------

  /** Save/load round trip: after writing `p`, loading its title gives back `p`, whatever was there before. */
  lemma LoadAfterSave(fs: Files, p: Page)
    ensures LoadPage(Saved(fs, p), p.title) == Ok(p)
  {
  }

  /** Writing a page leaves every other file as it was. */
  lemma SaveTouchesOneFile(fs: Files, p: Page, name: string)
    requires name != FileName(p.title)
    ensures name in Saved(fs, p) <==> name in fs
    ensures name in fs ==> Saved(fs, p)[name] == fs[name]
  {
  }

  /** Writing a page does not change what loading any other title gives. */
  lemma LoadOtherAfterSave(fs: Files, p: Page, t: string)
    requires t != p.title
    ensures LoadPage(Saved(fs, p), t) == LoadPage(fs, t)
  {
    if FileName(t) == FileName(p.title) {
      FileNameInjective(t, p.title);
    }
  }

  /** Last write wins: a second save of the same title replaces the first entirely. */
  lemma SaveOverwrites(fs: Files, p: Page, q: Page)
    requires p.title == q.title
    ensures Saved(Saved(fs, p), q) == Saved(fs, q)
  {
  }
}
