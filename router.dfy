/**
 * The request-path validator of the wiki: the pattern
 * `^/(edit|save|view)/([a-zA-Z0-9]+)$` written out as a hand-made matcher,
 * a declarative description of the paths it accepts, and `getTitle`,
 * which hands the second capture group (the page title) to the handlers.
 */
module Router {
  import opened Results

  /** The character class `[a-zA-Z0-9]`. */
  predicate IsAlnum(c: char) {
    ('a' <= c <= 'z') || ('A' <= c <= 'Z') || ('0' <= c <= '9')
  }

  /** A page title: one or more ASCII letters or digits. */
  predicate IsTitle(t: string) {
    |t| > 0 && forall i :: 0 <= i < |t| ==> IsAlnum(t[i])
  }

  /** The alternatives of the first group, `(edit|save|view)`. */
  const Verbs: set<string> := {"edit", "save", "view"}

  /** The path `/<verb>/<title>`. */
  function Compose(verb: string, title: string): string {
    "/" + verb + "/" + title
  }

  /** Declarative meaning of the pattern: the whole path is `/<verb>/<title>`. */
  ghost predicate IsValidPath(p: string) {
    exists v, t :: v in Verbs && IsTitle(t) && p == Compose(v, t)
  }

  // ---------------------------------------------------------------------
  // The matcher
  // ---------------------------------------------------------------------

  /** The submatches `FindStringSubmatch` reports: m[0], m[1] and m[2]. */
  datatype Submatch = Submatch(whole: string, verb: string, title: string)

  /** Consumes the literal `lit` at the front of `s`, giving what follows it. */
  function Literal(lit: string, s: string): (rest: Option<string>)
    ensures rest.Some? <==> lit <= s
    ensures rest.Some? ==> s == lit + rest.value
  {
    if lit <= s then Some(s[|lit|..]) else None
  }

  /** The group `(edit|save|view)`, tried left to right; gives the verb and what follows. */
  function Alternative(s: string): (r: Option<(string, string)>)
    ensures r.Some? ==> r.value.0 in Verbs && s == r.value.0 + r.value.1
    ensures r.None? ==> forall v :: v in Verbs ==> !(v <= s)
  {
    match Literal("edit", s)
    case Some(rest) => Some(("edit", rest))
    case None =>
      match Literal("save", s)
      case Some(rest) => Some(("save", rest))
      case None =>
        match Literal("view", s)
        case Some(rest) => Some(("view", rest))
        case None => None
  }

  /** Length of the longest prefix of `s` in `[a-zA-Z0-9]*` (the greedy scan of the class). */
  function AlnumRun(s: string): (n: nat)
    ensures n <= |s|
    ensures forall i :: 0 <= i < n ==> IsAlnum(s[i])
    ensures n < |s| ==> !IsAlnum(s[n])
  {
    if s == [] || !IsAlnum(s[0]) then 0 else 1 + AlnumRun(s[1..])
  }

  /**
   * `validPath.FindStringSubmatch(p)`: `^` and `$` anchor the match at the
   * start and the end of the whole text, so the title run must be non-empty
   * (`+`) and reach the last character.
   */
  function MatchPath(p: string): (m: Option<Submatch>)
    ensures m.Some? ==> m.value.whole == p && m.value.verb in Verbs
    ensures m.Some? ==> p == Compose(m.value.verb, m.value.title)
  {
    match Literal("/", p)
    case None => None
    case Some(afterSlash) =>
      match Alternative(afterSlash)
      case None => None
      case Some((verb, afterVerb)) =>
        match Literal("/", afterVerb)
        case None => None
        case Some(title) =>
          var n := AlnumRun(title);
          if 0 < n && n == |title| then Some(Submatch(p, verb, title)) else None
  }

  /** `getTitle`: the second group on a match, the error "Invalid Page Title" otherwise. */
  function GetTitle(p: string): (r: Result<string>)
    ensures r.Ok? <==> IsValidPath(p)
    ensures r.Err? ==> r.msg == "Invalid Page Title"
    ensures r.Ok? ==> IsTitle(r.value) && exists v :: v in Verbs && p == Compose(v, r.value)
  {
    MatchPathSound(p);
    MatchPathIffValid(p);
    match MatchPath(p)
    case None => Err("Invalid Page Title")
    case Some(m) => Ok(m.title)
  }

  // ---------------------------------------------------------------------
  // Properties of the matcher
  // ---------------------------------------------------------------------

  /** The greedy scan covers the whole string exactly when every character is in the class. */
  lemma {:induction false} AlnumRunCoversAll(s: string)
    ensures AlnumRun(s) == |s| <==> forall i :: 0 <= i < |s| ==> IsAlnum(s[i])
  {
    if s != [] {
      AlnumRunCoversAll(s[1..]);
      if forall i :: 0 <= i < |s| ==> IsAlnum(s[i]) {
        assert forall i :: 0 <= i < |s[1..]| ==> IsAlnum(s[1..][i]) by {
          forall i | 0 <= i < |s[1..]| ensures IsAlnum(s[1..][i]) {
            assert s[1..][i] == s[i + 1];
          }
        }
      }
    }
  }

  /** Every match is the whole path, split into a verb and a title. */
  lemma MatchPathSound(p: string)
    ensures MatchPath(p).Some? ==>
      var m := MatchPath(p).value;
      m.whole == p && m.verb in Verbs && IsTitle(m.title) && p == Compose(m.verb, m.title)
  {
    if MatchPath(p).Some? {
      var m := MatchPath(p).value;
      var afterSlash := Literal("/", p).value;
      var afterVerb := Alternative(afterSlash).value.1;
      assert afterVerb == "/" + m.title;
      AlnumRunCoversAll(m.title);
      assert p == "/" + (m.verb + ("/" + m.title));
    }
  }

  /** Every `/<verb>/<title>` is matched, with exactly that verb and title as groups. */
  lemma MatchPathComplete(v: string, t: string)
    requires v in Verbs && IsTitle(t)
    ensures MatchPath(Compose(v, t)) == Some(Submatch(Compose(v, t), v, t))
  {
    var p := Compose(v, t);
    assert p == "/" + (v + ("/" + t));
    assert Literal("/", p) == Some(v + ("/" + t));
    assert Alternative(v + ("/" + t)) == Some((v, "/" + t));
    assert Literal("/", "/" + t) == Some(t);
    AlnumRunCoversAll(t);
  }

  /** The matcher accepts exactly the paths of the declarative description. */
  lemma MatchPathIffValid(p: string)
    ensures MatchPath(p).Some? <==> IsValidPath(p)
  {
    if MatchPath(p).Some? {
      MatchPathSound(p);
      var m := MatchPath(p).value;
      assert p == Compose(m.verb, m.title);
    }
    if IsValidPath(p) {
      var v, t :| v in Verbs && IsTitle(t) && p == Compose(v, t);
      MatchPathComplete(v, t);
    }
  }

  /** A path splits into verb and title in only one way. */
  lemma ComposeUnique(v1: string, t1: string, v2: string, t2: string)
    requires v1 in Verbs && v2 in Verbs
    requires Compose(v1, t1) == Compose(v2, t2)
    ensures v1 == v2 && t1 == t2
  {
    var p := Compose(v1, t1);
    assert |v1| == 4 && |v2| == 4;
    assert v1 == p[1..5] && v2 == Compose(v2, t2)[1..5];
    assert t1 == p[6..] && t2 == Compose(v2, t2)[6..];
  }

  /** `getTitle` returns the title of `/<verb>/<title>` whichever the verb. */
  lemma GetTitleOfCompose(v: string, t: string)
    requires v in Verbs && IsTitle(t)
    ensures GetTitle(Compose(v, t)) == Ok(t)
  {
    MatchPathComplete(v, t);
  }

  /**
   * The verb group is ignored: any handler reached by `/<v1>/<t>` sees the
   * same title, or the same rejection, as one reached by `/<v2>/<t>`.
   */
  lemma GetTitleIgnoresVerb(v1: string, v2: string, t: string)
    requires v1 in Verbs && v2 in Verbs
    ensures GetTitle(Compose(v1, t)) == GetTitle(Compose(v2, t))
  {
    if IsTitle(t) {
      GetTitleOfCompose(v1, t);
      GetTitleOfCompose(v2, t);
    } else {
      forall v | v in Verbs ensures !IsValidPath(Compose(v, t)) {
        if IsValidPath(Compose(v, t)) {
          var v', t' :| v' in Verbs && IsTitle(t') && Compose(v, t) == Compose(v', t');
          ComposeUnique(v, t, v', t');
        }
      }
    }
  }

  /** `$` matches only at the end of the text: a trailing non-alphanumeric (a newline, say) is rejected. */
  lemma TrailingCharRejected(p: string, c: char)
    requires IsValidPath(p) && !IsAlnum(c)
    ensures !IsValidPath(p + [c])
  {
    forall v, t | v in Verbs && IsTitle(t) ensures p + [c] != Compose(v, t) {
      assert Compose(v, t)[|Compose(v, t)| - 1] == t[|t| - 1];
      assert (p + [c])[|p|] == c;
    }
  }

  /** In `/<verb>/<title>` the only slashes are at positions 0 and 5. */
  lemma SlashPositions(v: string, t: string, i: int)
    requires v in Verbs && IsTitle(t) && 0 <= i < |Compose(v, t)|
    ensures Compose(v, t)[i] == '/' <==> i == 0 || i == 5
  {
    var p := Compose(v, t);
    if i > 5 {
      assert p[i] == t[i - 6];
    }
  }

  /** `^` anchors at the start of the text: nothing may precede an accepted path. */
  lemma PrefixRejected(q: string, p: string)
    requires IsValidPath(p) && q != []
    ensures !IsValidPath(q + p)
  {
    if IsValidPath(q + p) {
      var v, t :| v in Verbs && IsTitle(t) && p == Compose(v, t);
      var v', t' :| v' in Verbs && IsTitle(t') && q + p == Compose(v', t');
      assert (q + p)[|q|] == p[0] == '/';
      SlashPositions(v', t', |q|);
      assert |q| == 5;
      assert (q + p)[|q| + 5] == p[5] == '/';
      SlashPositions(v', t', |q| + 5);
      assert false;
    }
  }

  /**
   * Only the three verbs route: whenever `/<v>/<t>` is accepted, `v` is one of
   * them and `t` is a title (so any other `v` gives 404).
   */
  lemma AcceptedPathParts(v: string, t: string)
    requires IsValidPath(Compose(v, t))
    ensures v in Verbs && IsTitle(t)
  {
    var v', t' :| v' in Verbs && IsTitle(t') && Compose(v, t) == Compose(v', t');
    var p := Compose(v, t);
    assert p[|v| + 1] == '/';
    SlashPositions(v', t', |v| + 1);
    assert v == p[1..5];
    assert v' == Compose(v', t')[1..5];
    ComposeUnique(v, t, v', t');
  }
}
