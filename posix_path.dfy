/** The parts of Python's `posixpath` that the image pipeline uses to name its
    artifacts: `basename`, `splitext` and two-argument `join`. */
module PosixPath {
  import opened Common

  /** Where the last path component of `p` begins: just after its last '/'. */
  function ComponentStart(p: string): (r: nat)
    ensures r <= |p|
    ensures '/' !in p[r..]
    ensures r > 0 ==> p[r - 1] == '/'
  {
    match RFind(p, '/')
    case None => 0
    case Some(i) => i + 1
  }

  /** `os.path.basename(p)`: everything after the last '/'. */
  function Basename(p: string): (r: string)
    ensures |r| <= |p| && r == p[|p| - |r|..]
    ensures '/' !in r
    ensures |r| < |p| ==> p[|p| - |r| - 1] == '/'
  {
    p[ComponentStart(p)..]
  }

  /** True when some character of `s` is not a dot. */
  predicate HasNonDot(s: string)
  {
    exists k :: 0 <= k < |s| && s[k] != '.'
  }

  /** `os.path.splitext(p)`: the extension starts at the last '.' of the last
      path component, unless every character before that dot in the component
      is itself a dot (".bashrc" and "..png" have no extension). */
  function Splitext(p: string): (r: (string, string))
    ensures r.0 + r.1 == p
    ensures r.1 != [] ==> r.1[0] == '.' && '.' !in r.1[1..] && '/' !in r.1
    ensures r.1 != [] ==> ComponentStart(p) <= |r.0| && HasNonDot(r.0[ComponentStart(p)..])
    ensures forall d ::
              (ComponentStart(p) <= d < |p| && p[d] == '.' && '.' !in p[d + 1..] &&
               HasNonDot(p[ComponentStart(p)..d])) ==> r == (p[..d], p[d..])
  {
    var start := ComponentStart(p);
    RFindLast(p, '.');
    match RFind(p, '.')
    case Some(d) =>
      if start <= d && HasNonDot(p[start..d]) then
        ExtensionAtLastDot(p, start, d);
        (p[..d], p[d..])
      else (p, [])
    case None => (p, [])
  }

  /** Splitting at the last dot of the last component gives an extension
      that starts with that dot and holds no other dot and no '/'. */
  lemma ExtensionAtLastDot(p: string, start: nat, d: nat)
    requires RFind(p, '.') == Some(d)
    requires start == ComponentStart(p) && start <= d
    ensures p[..d] + p[d..] == p
    ensures p[d..][0] == '.' && '.' !in p[d..][1..] && '/' !in p[d..]
    ensures p[..d][start..] == p[start..d]
  {
    SplitAt(p, start, d);
  }

  /** Cutting `p` at `d` inside the part that starts at `start`: the pieces
      rejoin, the second starts with `p[d]` and continues with what follows
      it, and a character absent from the part is absent from the second
      piece. */
  lemma SplitAt(p: string, start: nat, d: nat)
    requires start <= d < |p|
    ensures p[..d] + p[d..] == p
    ensures p[d..][0] == p[d] && p[d..][1..] == p[d + 1..]
    ensures p[..d][start..] == p[start..d]
    ensures forall c :: c !in p[start..] ==> c !in p[d..]
  {
    assert p[d..] == p[start..][d - start..];
  }

  /** `os.path.join(a, b)` for two components: an absolute `b` discards `a`;
      otherwise `b` follows `a`, with a '/' between them unless `a` is empty or
      already ends in one. */
  function Join(a: string, b: string): (r: string)
    ensures |b| > 0 && b[0] == '/' ==> r == b
    ensures !(|b| > 0 && b[0] == '/') ==> r == a + b || r == a + "/" + b
    ensures !(|b| > 0 && b[0] == '/') && (a == [] || a[|a| - 1] == '/') ==> r == a + b
    ensures !(|b| > 0 && b[0] == '/') && a != [] && a[|a| - 1] != '/' ==> r == a + "/" + b
  {
    if |b| > 0 && b[0] == '/' then b
    else if a == [] || a[|a| - 1] == '/' then a + b
    else a + "/" + b
  }

  /** Whatever `a` is, the joined path ends with `b`. */
  lemma JoinKeepsName(a: string, b: string)
    ensures |b| <= |Join(a, b)| && Join(a, b)[|Join(a, b)| - |b|..] == b
  {
  }

  /** The base name the pipeline names its artifacts after:
      `os.path.splitext(os.path.basename(path))[0]`. */
  function Stem(path: string): (r: string)
    ensures r <= Basename(path)
    ensures Basename(path) == r + Splitext(Basename(path)).1
    ensures '/' !in r
  {
    var b := Basename(path);
    var s := Splitext(b);
    PrefixAvoids(s.0, s.1, '/');
    s.0
  }

  /** A character absent from `r + t` is absent from `r`. */
  lemma PrefixAvoids(r: string, t: string, c: char)
    requires c !in r + t
    ensures r <= r + t && c !in r
  {
  }

  /** Joining a directory that does not end in '/' with a name that does not
      start with '/' puts exactly one separator between them. */
  lemma JoinUnder(dir: string, name: string)
    requires dir != [] && dir[|dir| - 1] != '/'
    requires name != [] && name[0] != '/'
    ensures Join(dir, name) == dir + "/" + name
  {
  }
}
