/** The parts of Node's POSIX `path` module that install planning uses: `dirname`, `basename`
    (without an extension argument) and `join` of already-clean segments. */
module Paths {
  import opened Text

  /** The scan of `dirname` from index `i` down to 1: the index of the last slash that follows
      a non-slash character, or -1. `matchedSlash` is true while only slashes have been seen. */
  function DirnameEnd(s: string, i: int, matchedSlash: bool): (r: int)
    requires i < |s|
    decreases i
    ensures r == -1 || (1 <= r <= i && s[r] == '/')
  {
    if i < 1 then -1
    else if s[i] == '/' then (if !matchedSlash then i else DirnameEnd(s, i - 1, matchedSlash))
    else DirnameEnd(s, i - 1, false)
  }

  /** `path.posix.dirname(s)`. */
  function Dirname(s: string): string {
    if s == [] then "."
    else
      var hasRoot := s[0] == '/';
      var end := DirnameEnd(s, |s| - 1, true);
      if end == -1 then (if hasRoot then "/" else ".")
      else if hasRoot && end == 1 then "//"
      else s[..end]
  }

  /** The path with its trailing slashes removed. */
  function TrimTrailingSlashes(s: string): (t: string)
    ensures |t| <= |s| && t == s[..|t|]
    ensures t == [] || t[|t| - 1] != '/'
    ensures (s == [] || s[|s| - 1] != '/') ==> t == s
  {
    if s != [] && s[|s| - 1] == '/' then TrimTrailingSlashes(s[..|s| - 1]) else s
  }

  /** The index just after the last slash of `t`, or 0 when `t` has none. */
  function AfterLastSlash(t: string): (k: nat)
    ensures k <= |t|
    ensures k > 0 ==> t[k - 1] == '/'
    ensures forall i | k <= i < |t| :: t[i] != '/'
  {
    if t == [] then 0
    else if t[|t| - 1] == '/' then |t|
    else AfterLastSlash(t[..|t| - 1])
  }

  /** `path.posix.basename(s)`: the last non-empty segment, trailing slashes ignored. */
  function Basename(s: string): string {
    var t := TrimTrailingSlashes(s);
    t[AfterLastSlash(t)..]
  }

  /** `path.join(a, b)` for segments that need no normalisation. */
  function JoinPath(a: string, b: string): string {
    a + "/" + b
  }

  /** A name without a slash lives in the current directory. */
  lemma {:induction false} DirnameWithoutSlash(s: string)
    requires '/' !in s
    ensures Dirname(s) == "."
  {
    if s != [] {
      DirnameEndWithoutSlash(s, |s| - 1, true);
    }
  }

  lemma {:induction false} DirnameEndWithoutSlash(s: string, i: int, matchedSlash: bool)
    requires i < |s| && '/' !in s
    decreases i
    ensures DirnameEnd(s, i, matchedSlash) == -1
  {
    if i >= 1 {
      assert s[i] in s;
      DirnameEndWithoutSlash(s, i - 1, false);
    }
  }

  /** Apart from the current-directory answer ".", `dirname` is a prefix of its argument. */
  lemma DirnameIsPrefix(s: string)
    ensures Dirname(s) == "." || StartsWith(s, Dirname(s))
  {
  }

  /** When the path does not end in a slash, its basename is a suffix of it. */
  lemma {:induction false} BasenameIsSuffix(s: string)
    requires s == [] || s[|s| - 1] != '/'
    ensures var b := Basename(s); |b| <= |s| && b == s[|s| - |b|..]
  {
  }

  /** For a path that does not end in a slash, `dirname` is everything before the last slash
      (unless that slash is the second character after a leading one). */
  lemma DirnameAtLastSlash(s: string, k: nat)
    requires 1 <= k < |s| - 1 && s[k] == '/' && !(s[0] == '/' && k == 1)
    requires forall j | k < j < |s| :: s[j] != '/'
    ensures Dirname(s) == s[..k]
  {
    DirnameEndFindsSlash(s, |s| - 2, k);
  }

  lemma {:induction false} DirnameEndFindsSlash(s: string, i: int, k: nat)
    requires 1 <= k <= i < |s| && s[k] == '/'
    requires forall j | k < j < |s| :: s[j] != '/'
    decreases i
    ensures DirnameEnd(s, i, false) == k
  {
    if i > k {
      DirnameEndFindsSlash(s, i - 1, k);
    }
  }

  /** The basename of a path that does not end in a slash is what follows its last slash. */
  lemma BasenameAfterLastSlash(s: string, k: nat)
    requires k < |s| && s[k] == '/' && s[|s| - 1] != '/'
    requires forall j | k < j < |s| :: s[j] != '/'
    ensures Basename(s) == s[k + 1..]
  {
    AfterLastSlashFinds(s, k);
  }

  lemma {:induction false} AfterLastSlashFinds(t: string, k: nat)
    requires k < |t| && t[k] == '/'
    requires forall j | k < j < |t| :: t[j] != '/'
    decreases |t|
    ensures AfterLastSlash(t) == k + 1
  {
    if k < |t| - 1 {
      AfterLastSlashFinds(t[..|t| - 1], k);
    }
  }
}
