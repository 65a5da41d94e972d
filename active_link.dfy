/**
  The active-link test shared by the student and teacher navigation bars:
  the root link is active only on the root itself, any other link on every
  path that starts with it.
 */
module ActiveLink {
  import opened Text

  function IsActive(pathname: string, path: string): bool {
    if path == "/" then pathname == "/" else StartsWith(pathname, path)
  }

  /** The root link is active exactly on "/". */
  lemma RootActiveIff(pathname: string)
    ensures IsActive(pathname, "/") <==> pathname == "/"
  {
  }

  /** Any other link is active exactly on the paths under it (nested pages included). */
  lemma PrefixActiveIff(pathname: string, path: string)
    requires path != "/"
    ensures IsActive(pathname, path) <==> exists rest :: pathname == path + rest
  {
    if IsActive(pathname, path) {
      assert pathname == path + pathname[|path|..];
    }
    if exists rest :: pathname == path + rest {
      var rest :| pathname == path + rest;
      assert pathname[..|path|] == path;
    }
  }

  /** A link is active on its own page. */
  lemma ActiveOnOwnPath(path: string)
    ensures IsActive(path, path)
  {
    if path != "/" {
      assert path[..|path|] == path;
    }
  }
}
