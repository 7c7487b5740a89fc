/**
 * Turning the paths that filepath.Walk reports into the keys of the
 * emitted `names` table.
 */
module Paths {

  /** strings.TrimPrefix. */
  function TrimPrefix(s: string, prefix: string): (r: string)
    ensures prefix <= s ==> prefix + r == s
    ensures !(prefix <= s) ==> r == s
  {
    if prefix <= s then s[|prefix|..] else s
  }

  /** rootedName: the walked path with the walk root cut off, "/" for the root itself. */
  function RootedName(name: string, root: string): (r: string)
    ensures r != ""
    ensures name == root ==> r == "/"
    ensures root <= name && |root| < |name| ==> r == name[|root|..]
    ensures !(root <= name) ==> r == (if name == "" then "/" else name)
  {
    var n := TrimPrefix(name, root);
    if n == "" then "/" else n
  }

  /**
   * The paths filepath.Walk passes to its callback for a cleaned root:
   * the root itself, or filepath.Join(root, rel) for a non-empty relative
   * `rel`, which is `rel` itself under ".", "/" + rel under "/" and
   * root + "/" + rel otherwise.
   */
  predicate WalkPath(path: string, root: string)
  {
    || path == root
    || (root == "." && path != "")
    || (root == "/" && |path| > 1 && path[0] == '/')
    || (root != "." && root != "/" && |path| > |root| + 1 && root <= path && path[|root|] == '/')
  }

  /**
   * The key of a walked path in the index: "/" followed by the path
   * relative to the root.  For every root other than "." and "/" this is
   * exactly RootedName (see WalkKeyIsRootedName).
   */
  function WalkKey(path: string, root: string): (k: string)
    ensures WalkPath(path, root) ==> |k| > 0 && k[0] == '/'
    ensures WalkPath(path, root) ==> (k == "/" <==> path == root)
  {
    if path == root then "/"
    else if root == "." then "/" + path
    else if root == "/" then path
    else RootedName(path, root)
  }

  lemma WalkKeyIsRootedName(path: string, root: string)
    requires WalkPath(path, root)
    requires root != "." && root != "/"
    ensures WalkKey(path, root) == RootedName(path, root)
  {
  }

  /** Distinct walked paths get distinct keys, whatever the root. */
  lemma WalkKeyInjective(p: string, q: string, root: string)
    requires WalkPath(p, root) && WalkPath(q, root) && p != q
    ensures WalkKey(p, root) != WalkKey(q, root)
  {
    if p == root || q == root {
    } else if root == "." {
      assert p == ("/" + p)[1..] && q == ("/" + q)[1..];
    } else if root == "/" {
    } else {
      assert p == root + WalkKey(p, root);
      assert q == root + WalkKey(q, root);
    }
  }

  /**
   * Under the root ".", filepath.Walk reports the children of the root as
   * "x" and ".x"; rootedName maps both to "x", which has no leading "/".
   */
  lemma RootedNameCollidesUnderDot()
    ensures WalkPath("x", ".") && WalkPath(".x", ".") && "x" != ".x"
    ensures RootedName("x", ".") == RootedName(".x", ".") == "x"
    ensures WalkKey("x", ".") == "/x" && WalkKey(".x", ".") == "/.x"
  {
    assert "x"[0] != "."[0];
    assert "." <= ".x" && ".x"[1..] == "x";
  }

  /**
   * Under the root "/", filepath.Walk reports the child "x" of the root as
   * "/x"; rootedName strips the root and gives "x", which has no leading
   * "/", while the corrected key keeps "/x".
   */
  lemma RootedNameUnrootedUnderSlash()
    ensures WalkPath("/x", "/")
    ensures RootedName("/x", "/") == "x"
    ensures WalkKey("/x", "/") == "/x"
  {
    assert "/" <= "/x" && "/x"[1..] == "x";
  }
}
