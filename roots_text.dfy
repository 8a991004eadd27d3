/**
 * The string scanning that roots.c does by hand on C strings: the search
 * for the first ':', the skipping of '/' characters and the gluing of a
 * mount point to a relative path. Strings are taken to contain no '\0':
 * the table's names are proved to be C strings, and a path with an embedded
 * NUL, where the C scans would stop early, is outside the model.
 */
module RootText {

  import opened RootTypes

  /** A value of a C string: no NUL character inside. */
  predicate IsCString(s: string) {
    forall i :: 0 <= i < |s| ==> s[i] != '\0'
  }

  predicate StartsWith(s: string, p: string) {
    |p| <= |s| && s[..|p|] == p
  }

  /** The index of the first ':' of `s`, if any. */
  function ColonIndex(s: string): (r: Option<nat>)
    ensures r.Some? ==> r.value < |s| && s[r.value] == ':' && ':' !in s[..r.value]
    ensures r.None? <==> ':' !in s
  {
    if s == [] then None
    else if s[0] == ':' then Some(0)
    else match ColonIndex(s[1..])
      case None => None
      case Some(k) =>
        assert s[..k + 1] == [s[0]] + s[1..][..k];
        Some(k + 1)
  }

  /** The root prefix of a path: everything up to and including the first ':'. */
  function RootPrefix(s: string): (p: Option<string>)
    ensures p.Some? ==> StartsWith(s, p.value) && |p.value| > 0 && p.value[|p.value| - 1] == ':'
                        && ':' !in p.value[..|p.value| - 1]
    ensures p.None? <==> ':' !in s
  {
    match ColonIndex(s)
    case None => None
    case Some(k) =>
      assert s[..k + 1][..k] == s[..k];
      Some(s[..k + 1])
  }

  /** The index of the first character at or after `i` that is not '/'. */
  function SlashRun(s: string, i: nat): (r: nat)
    requires i <= |s|
    decreases |s| - i
    ensures i <= r <= |s|
    ensures forall j :: i <= j < r ==> s[j] == '/'
    ensures r < |s| ==> s[r] != '/'
  {
    if i < |s| && s[i] == '/' then SlashRun(s, i + 1) else i
  }

  /** A mount point followed by a relative path, with one '/' between them. */
  function JoinPath(mountPoint: string, rest: string): (p: string)
    requires mountPoint != []
    ensures StartsWith(p, mountPoint)
    ensures |p| == |mountPoint| + |rest| + (if mountPoint[|mountPoint| - 1] == '/' then 0 else 1)
    ensures p[|p| - |rest|..] == rest
    ensures p[|p| - |rest| - 1] == '/'
  {
    if mountPoint[|mountPoint| - 1] == '/' then mountPoint + rest else mountPoint + "/" + rest
  }

  /**
   * Joining a mount point to what follows the '/' run at `n` can be undone:
   * the joined text ends in that remainder behind a '/', and the remainder
   * behind the text up to `n` and the skipped '/' characters is `path` again.
   */
  lemma JoinPathSplit(path: string, n: nat, mountPoint: string)
    requires n <= |path| && mountPoint != []
    ensures var k := SlashRun(path, n);
      var o := JoinPath(mountPoint, path[k..]);
      && StartsWith(o, mountPoint)
      && |path| - k < |o| && o[|o| - (|path| - k) - 1] == '/'
      && path == path[..n] + path[n..k] + o[|o| - (|path| - k)..]
      && forall j :: n <= j < k ==> path[j] == '/'
  {
    var k := SlashRun(path, n);
    assert path == path[..n] + path[n..k] + path[k..];
  }

  /** A colon with no colon before it is the one ColonIndex finds. */
  lemma FirstColon(s: string, k: nat)
    requires k < |s| && s[k] == ':' && ':' !in s[..k]
    ensures ColonIndex(s) == Some(k) && RootPrefix(s) == Some(s[..k + 1])
  {
    var r := ColonIndex(s);
    assert r.Some? by {
      assert s[k] in s;
    }
  }
}
