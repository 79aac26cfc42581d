/** The server's path blacklist: four directories under the user's home
    whose contents are never indexed. */
module Config {
  import opened Common
  import StringHelper

  const HOME_VAR: string := "$HOME"

  /** The entries as written ("$HOME/.git" and so on), before the home
      directory is filled in. */
  const DEFAULTS: seq<string> := [HOME_VAR + "/.git", HOME_VAR + "/.svn", HOME_VAR + "/.cache", HOME_VAR + "/.local/share/Trash"]

  /** `s.replace(s.find(pat), |pat|, rep)` when `pat` occurs, else `s`. */
  function ReplaceFirst(s: string, pat: string, rep: string): (r: string)
    ensures !Contains(s, pat) ==> r == s
    ensures Contains(s, pat) ==>
      exists p :: (0 <= p && p + |pat| <= |s| && OccursAt(pat, s, p)
        && (forall j :: 0 <= j < p ==> !OccursAt(pat, s, j)) && r == s[..p] + rep + s[p + |pat|..])
  {
    match StringHelper.Find(s, pat)
    case None => s
    case Some(p) => s[..p] + rep + s[p + |pat|..]
  }

  /** The blacklist once `home` replaces the first `$HOME` of each entry. */
  function Substituted(home: string): (r: seq<string>)
    ensures |r| == |DEFAULTS|
    ensures forall k :: 0 <= k < |r| ==> r[k] == ReplaceFirst(DEFAULTS[k], HOME_VAR, home)
  {
    seq(|DEFAULTS|, k requires 0 <= k < |DEFAULTS| => ReplaceFirst(DEFAULTS[k], HOME_VAR, home))
  }

  class Config {
    var blacklist: seq<string>

    /** The constructor: the four defaults, each rewritten in place. */
    constructor (home: string)
      ensures blacklist == Substituted(home)
    {
      blacklist := DEFAULTS;
      new;
      var k := 0;
      while k < |blacklist|
        invariant 0 <= k <= |blacklist| == |DEFAULTS|
        invariant forall j :: 0 <= j < k ==> blacklist[j] == ReplaceFirst(DEFAULTS[j], HOME_VAR, home)
        invariant forall j :: k <= j < |DEFAULTS| ==> blacklist[j] == DEFAULTS[j]
      {
        var pos := StringHelper.Find(blacklist[k], HOME_VAR);
        if pos.Some? {
          var path := blacklist[k];
          blacklist := blacklist[k := path[..pos.value] + home + path[pos.value + |HOME_VAR|..]];
        }
        k := k + 1;
      }
      assert blacklist == Substituted(home);
    }

    /** `isPathInBlacklist`: some entry occurs anywhere in `path`. */
    method IsPathInBlacklist(path: string) returns (r: bool)
      ensures r <==> exists k :: 0 <= k < |blacklist| && Contains(path, blacklist[k])
    {
      for k := 0 to |blacklist|
        invariant forall j :: 0 <= j < k ==> !Contains(path, blacklist[j])
      {
        if StringHelper.ContainsStr(path, blacklist[k]) {
          return true;
        }
      }
      return false;
    }
  }

  /** The first `$HOME` of an entry that starts with it is its prefix. */
  lemma HomeFirst(tail: string, home: string)
    ensures ReplaceFirst(HOME_VAR + tail, HOME_VAR, home) == home + tail
  {
    var s := HOME_VAR + tail;
    assert s[0..|HOME_VAR|] == HOME_VAR;
    assert OccursAt(HOME_VAR, s, 0);
    assert StringHelper.Find(s, HOME_VAR) == Some(0);
    assert s[|HOME_VAR|..] == tail;
  }

  /** The blacklist is exactly the four defaults under `home`. */
  lemma Blacklist(home: string)
    ensures Substituted(home) == [home + "/.git", home + "/.svn", home + "/.cache", home + "/.local/share/Trash"]
  {
    HomeFirst("/.git", home);
    HomeFirst("/.svn", home);
    HomeFirst("/.cache", home);
    HomeFirst("/.local/share/Trash", home);
  }

  /** A path under the home directory's `.git` is blacklisted, and no path
      is unless it holds one of the four entries. */
  lemma Blacklisted(home: string, path: string)
    ensures (exists k :: 0 <= k < |Substituted(home)| && Contains(path, Substituted(home)[k]))
      <==> (Contains(path, home + "/.git") || Contains(path, home + "/.svn")
        || Contains(path, home + "/.cache") || Contains(path, home + "/.local/share/Trash"))
  {
    Blacklist(home);
    var b := Substituted(home);
    if Contains(path, home + "/.git") { assert Contains(path, b[0]); }
    if Contains(path, home + "/.svn") { assert Contains(path, b[1]); }
    if Contains(path, home + "/.cache") { assert Contains(path, b[2]); }
    if Contains(path, home + "/.local/share/Trash") { assert Contains(path, b[3]); }
  }

  /** The test is by substring: the entry may sit anywhere in the path. */
  lemma AnywhereInPath(pre: string, entry: string, post: string)
    ensures Contains(pre + entry + post, entry)
  {
    var s := pre + entry + post;
    assert s[|pre|..|pre| + |entry|] == entry;
    assert OccursAt(entry, s, |pre|);
  }
}
