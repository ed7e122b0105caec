/**
 The parts of Python's `str` and `posixpath` that the loaders use to pick and
 name files: `str.endswith`, `os.path.join` and the root half of
 `os.path.splitext`, plus a `basename` used only to state what `join` keeps.
 */
module Paths {

  const Sep: char := '/'

  predicate StartsWith(s: string, prefix: string) {
    |prefix| <= |s| && s[..|prefix|] == prefix
  }

  /** Python's `s.endswith(suffix)`. */
  predicate EndsWith(s: string, suffix: string) {
    |suffix| <= |s| && s[|s| - |suffix|..] == suffix
  }

  /** Python's `s.rfind(c)`: the last index holding `c`, or -1. */
  function LastIndexOf(s: string, c: char): (r: int)
    ensures -1 <= r < |s|
    ensures r >= 0 ==> s[r] == c
    ensures forall k :: r < k < |s| ==> s[k] != c
  {
    if |s| == 0 then -1
    else if s[|s| - 1] == c then |s| - 1
    else LastIndexOf(s[..|s| - 1], c)
  }

  /** `os.path.join(root, name)` for two components: an absolute `name` replaces
      `root`; otherwise a separator is inserted unless `root` is empty or already
      ends with one. */
  function Join(root: string, name: string): string {
    if |name| > 0 && name[0] == Sep then name
    else if |root| == 0 || root[|root| - 1] == Sep then root + name
    else root + [Sep] + name
  }

  /** A joined path ends with the joined name; a relative name is appended to
      `root` with at most one separator inserted (none when `root` is empty or
      already ends in one), an absolute one replaces it. */
  lemma JoinShape(root: string, name: string)
    ensures EndsWith(Join(root, name), name)
    ensures StartsWith(name, [Sep]) ==> Join(root, name) == name
    ensures !StartsWith(name, [Sep]) ==>
              var p := Join(root, name);
              StartsWith(p, root) && (p[|root|..] == name || p[|root|..] == [Sep] + name)
  {
  }

  /** Everything after the last separator, as `os.path.basename` gives it. The
      loaders do not call it; it states what `Join` keeps of the name. */
  function Basename(p: string): (b: string)
    ensures EndsWith(p, b)
    ensures Sep !in b
  {
    p[LastIndexOf(p, Sep) + 1..]
  }

  /** The first half of `os.path.splitext(p)`: `p` cut at its last dot, provided
      that dot lies in the final component and is preceded there by some
      character other than a dot; otherwise `p` itself. */
  function Stem(p: string): (stem: string)
    ensures StartsWith(p, stem)
    ensures stem != p ==> p[|stem|] == '.' && Sep !in p[|stem|..] && '.' !in p[|stem| + 1..]
  {
    var sepIndex := LastIndexOf(p, Sep);
    var dotIndex := LastIndexOf(p, '.');
    if dotIndex > sepIndex && exists k :: sepIndex < k < dotIndex && p[k] != '.' then p[..dotIndex]
    else p
  }

  /** Past a prefix ending in `c`, a tail free of `c` leaves the last `c` where it was. */
  lemma {:induction false} LastIndexOfAfterTail(prefix: string, tail: string, c: char)
    requires c !in tail
    ensures LastIndexOf(prefix + tail, c) == LastIndexOf(prefix, c)
    decreases |tail|
  {
    if |tail| == 0 {
      assert prefix + tail == prefix;
    } else {
      var s := prefix + tail;
      assert s[|s| - 1] == tail[|tail| - 1];
      assert s[..|s| - 1] == prefix + tail[..|tail| - 1];
      LastIndexOfAfterTail(prefix, tail[..|tail| - 1], c);
    }
  }

  /** The base name of a joined path is the file name that was joined. */
  lemma BasenameOfJoin(root: string, name: string)
    requires |name| > 0 && Sep !in name
    ensures Basename(Join(root, name)) == name
  {
    var prefix := if |root| == 0 || root[|root| - 1] == Sep then root else root + [Sep];
    assert Join(root, name) == prefix + name;
    LastIndexOfAfterTail(prefix, name, Sep);
    if |prefix| > 0 {
      assert prefix[|prefix| - 1] == Sep;
      assert LastIndexOf(prefix, Sep) == |prefix| - 1;
    }
    assert (prefix + name)[|prefix|..] == name;
  }
}
