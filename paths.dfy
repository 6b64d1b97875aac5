/** The four path helpers the converter uses (dirname, basename, the root part of splitext, join),
    written after Python's posixpath over '/'-separated strings. The functions are plain
    definitions; what they promise is stated by the lemmas that follow them. */
module Paths {

  /** Index of the last occurrence of `c` among the first `n` characters of `s`, or -1 when
      there is none (str.rfind when n == |s|). */
  function LastIndexBefore(s: string, c: char, n: nat): (r: int)
    requires n <= |s|
    ensures -1 <= r < n
  {
    if n == 0 then -1
    else if s[n - 1] == c then n - 1
    else LastIndexBefore(s, c, n - 1)
  }

  function LastIndexOf(s: string, c: char): (r: int)
    ensures -1 <= r < |s|
  {
    LastIndexBefore(s, c, |s|)
  }

  /** Every character of s is c. */
  predicate AllChar(s: string, c: char)
  {
    |s| == 0 || (s[|s| - 1] == c && AllChar(s[..|s| - 1], c))
  }

  /** The shape of every directory dirname returns: empty, only slashes, or not ending in a slash. */
  predicate DirShaped(d: string)
  {
    d == "" || AllChar(d, '/') || d[|d| - 1] != '/'
  }

  /** str.rstrip('/') */
  function TrimTrailingSlashes(s: string): string
  {
    if |s| > 0 && s[|s| - 1] == '/' then TrimTrailingSlashes(s[..|s| - 1]) else s
  }

  /** posixpath.basename: everything after the last slash. */
  function Basename(p: string): string
  {
    p[LastIndexOf(p, '/') + 1..]
  }

  /** posixpath.dirname: everything up to the last slash, with trailing slashes removed
      unless that head consists of slashes only (then removing them would leave nothing). */
  function Dirname(p: string): string
  {
    var head := p[..LastIndexOf(p, '/') + 1];
    var trimmed := TrimTrailingSlashes(head);
    if trimmed != "" then trimmed else head
  }

  /** posixpath.join for two components. */
  function Join(a: string, b: string): string
  {
    if |b| > 0 && b[0] == '/' then b
    else if a == "" || a[|a| - 1] == '/' then a + b
    else a + "/" + b
  }

  /** The root part of posixpath.splitext: the path without its final extension. A dot that only
      follows a leading run of dots of the last component does not start an extension. */
  function SplitextRoot(p: string): string
  {
    var sep := LastIndexOf(p, '/');
    var dot := LastIndexOf(p, '.');
    if dot > sep && !AllChar(p[sep + 1..dot], '.') then p[..dot] else p
  }

  /** os.path.splitext(os.path.basename(p))[0]: the file name without its extension. */
  function Stem(p: string): string
  {
    SplitextRoot(Basename(p))
  }

  /** The search finds the last occurrence before n, and -1 only when there is none. */
  lemma {:induction false} LastIndexFound(s: string, c: char, n: nat)
    requires n <= |s|
    ensures LastIndexBefore(s, c, n) >= 0 ==> s[LastIndexBefore(s, c, n)] == c
    ensures forall k :: LastIndexBefore(s, c, n) < k < n ==> s[k] != c
  {
    if n > 0 && s[n - 1] != c {
      LastIndexFound(s, c, n - 1);
    }
  }

  /** rfind over the whole string. */
  lemma LastIndexOfFinds(s: string, c: char)
    ensures LastIndexOf(s, c) >= 0 ==> s[LastIndexOf(s, c)] == c
    ensures forall k :: LastIndexOf(s, c) < k < |s| ==> s[k] != c
  {
    LastIndexFound(s, c, |s|);
  }

  /** AllChar means what it says. */
  lemma {:induction false} AllCharMeans(s: string, c: char)
    ensures AllChar(s, c) <==> forall i :: 0 <= i < |s| ==> s[i] == c
  {
    if |s| > 0 {
      AllCharMeans(s[..|s| - 1], c);
    }
  }

  /** rstrip leaves nothing of a string of slashes. */
  lemma {:induction false} TrimAllSlashes(s: string)
    requires AllChar(s, '/')
    ensures TrimTrailingSlashes(s) == ""
  {
    if |s| > 0 {
      TrimAllSlashes(s[..|s| - 1]);
    }
  }

  /** rstrip removes exactly the trailing slashes. */
  lemma {:induction false} TrimmedShape(s: string)
    ensures |TrimTrailingSlashes(s)| <= |s| && TrimTrailingSlashes(s) == s[..|TrimTrailingSlashes(s)|]
    ensures TrimTrailingSlashes(s) == "" || TrimTrailingSlashes(s)[|TrimTrailingSlashes(s)| - 1] != '/'
    ensures forall i :: |TrimTrailingSlashes(s)| <= i < |s| ==> s[i] == '/'
  {
    if |s| > 0 && s[|s| - 1] == '/' {
      TrimmedShape(s[..|s| - 1]);
    }
  }

  /** A basename holds no slash. */
  lemma BasenameNoSlash(p: string)
    ensures '/' !in Basename(p)
  {
    LastIndexOfFinds(p, '/');
  }

  /** A basename holds no slash and is everything after the path's last slash: it ends the path,
      the character before it (if any) is a slash, and a path without a slash is its own basename. */
  lemma BasenameShape(p: string)
    ensures '/' !in Basename(p)
    ensures |Basename(p)| <= |p| && Basename(p) == p[|p| - |Basename(p)|..]
    ensures |Basename(p)| < |p| ==> p[|p| - |Basename(p)| - 1] == '/'
    ensures '/' !in p ==> Basename(p) == p
  {
    var i := LastIndexOf(p, '/');
    LastIndexOfFinds(p, '/');
    BasenameNoSlash(p);
    assert Basename(p) == p[i + 1..] && |Basename(p)| == |p| - i - 1;
    if i >= 0 {
      assert p[i] in p;
    }
  }

  /** A dirname is the head of the path before its basename with the trailing slashes removed,
      unless that head is only slashes, which is kept whole. */
  lemma DirnameShape(p: string)
    ensures DirShaped(Dirname(p))
    ensures |Dirname(p)| <= |p| - |Basename(p)| && Dirname(p) == p[..|Dirname(p)|]
    ensures forall k :: |Dirname(p)| <= k < |p| - |Basename(p)| ==> p[k] == '/'
    ensures AllChar(p[..|p| - |Basename(p)|], '/') ==> Dirname(p) == p[..|p| - |Basename(p)|]
    ensures !AllChar(p[..|p| - |Basename(p)|], '/') ==> Dirname(p) != "" && Dirname(p)[|Dirname(p)| - 1] != '/'
  {
    var head := p[..LastIndexOf(p, '/') + 1];
    assert |Basename(p)| == |p| - |head|;
    TrimmedShape(head);
    AllCharMeans(head, '/');
  }

  /** The root is a prefix of p, non-empty when p is; what it drops is the final extension of the
      last component: it starts with the path's last dot and holds no other dot and no slash. */
  lemma SplitextRootShape(p: string)
    ensures |SplitextRoot(p)| <= |p| && SplitextRoot(p) == p[..|SplitextRoot(p)|]
    ensures p != "" ==> SplitextRoot(p) != ""
    ensures SplitextRoot(p) != p ==>
      p[|SplitextRoot(p)|] == '.' && forall k :: |SplitextRoot(p)| <= k < |p| ==> p[k] != '/'
    ensures SplitextRoot(p) != p ==> forall k :: |SplitextRoot(p)| < k < |p| ==> p[k] != '.'
  {
    var sep, dot := LastIndexOf(p, '/'), LastIndexOf(p, '.');
    if dot > sep && !AllChar(p[sep + 1..dot], '.') {
      LastIndexOfFinds(p, '/');
      LastIndexOfFinds(p, '.');
      assert |p[sep + 1..dot]| > 0;
      DropFrom(p, sep, dot);
    }
  }

  /** Cutting p at a dot after its last slash keeps a non-empty prefix and drops a slash-free
      tail that starts with that dot and holds no other one. */
  lemma DropFrom(p: string, sep: int, dot: int)
    requires -1 <= sep && sep + 1 < dot < |p| && p[dot] == '.'
    requires forall k :: sep < k < |p| ==> p[k] != '/'
    requires forall k :: dot < k < |p| ==> p[k] != '.'
    ensures var r := p[..dot];
      && |r| < |p| && r == p[..|r|] && r != ""
      && p[|r|] == '.' && (forall k :: |r| <= k < |p| ==> p[k] != '/')
      && (forall k :: |r| < k < |p| ==> p[k] != '.')
  {
  }

  /** splitext takes off exactly one extension: a slash-free name that is not only dots, followed
      by '.' and an extension without dot or slash, has that name as its root. */
  lemma SplitextOfExtension(r: string, e: string)
    requires '/' !in r && !AllChar(r, '.')
    requires '/' !in e && '.' !in e
    ensures SplitextRoot(r + "." + e) == r
  {
    var p := r + "." + e;
    LastIndexOfFinds(p, '/');
    LastIndexOfFinds(p, '.');
    assert p[|r|] == '.';
    forall k | |r| < k < |p| ensures p[k] != '.' && p[k] != '/' {
      assert p[k] == e[k - |r| - 1] && e[k - |r| - 1] in e;
    }
    forall k | 0 <= k < |r| ensures p[k] != '/' {
      assert p[k] == r[k] && r[k] in r;
    }
    assert LastIndexOf(p, '.') == |r|;
    assert LastIndexOf(p, '/') == -1;
    assert p[0..|r|] == r;
  }

  /** A stem holds no slash, starts the basename, and is empty only when the basename is; what
      it leaves of the basename is its final extension: a dot followed by no other dot. */
  lemma StemShape(p: string)
    ensures '/' !in Stem(p)
    ensures |Stem(p)| <= |Basename(p)| && Stem(p) == Basename(p)[..|Stem(p)|]
    ensures Basename(p) != "" ==> Stem(p) != ""
    ensures Stem(p) != Basename(p) ==>
      && Basename(p)[|Stem(p)|] == '.'
      && forall k :: |Stem(p)| < k < |Basename(p)| ==> Basename(p)[k] != '.'
  {
    var b := Basename(p);
    BasenameNoSlash(p);
    SplitextRootShape(b);
    PrefixKeepsOut(b, SplitextRoot(b), '/');
  }

  /** A prefix of a string holds no character the string does not. */
  lemma PrefixKeepsOut(s: string, t: string, c: char)
    requires c !in s && |t| <= |s| && t == s[..|t|]
    ensures c !in t
  {
    assert forall k :: 0 <= k < |t| ==> t[k] == s[k];
  }

  /** Join ends with its second component. */
  lemma JoinEndsWith(a: string, b: string)
    ensures |Join(a, b)| >= |b| && Join(a, b)[|Join(a, b)| - |b|..] == b
  {
  }

  /** The last '/' of x + b is the one that ends x. */
  lemma LastSlashOfAppend(x: string, b: string)
    requires '/' !in b
    requires x == "" || x[|x| - 1] == '/'
    ensures LastIndexOf(x + b, '/') == |x| - 1
  {
    var s := x + b;
    LastIndexOfFinds(s, '/');
    assert forall j :: 0 <= j < |b| ==> b[j] != '/';
    assert forall k :: |x| <= k < |s| ==> s[k] == b[k - |x|];
    assert x != "" ==> s[|x| - 1] == '/';
  }

  /** The slash Join puts between a directory and a name, if any, ends the first part. */
  function JoinPrefix(d: string): (x: string)
    ensures x == "" || x[|x| - 1] == '/'
  {
    if d == "" || d[|d| - 1] == '/' then d else d + "/"
  }

  lemma JoinIsAppend(d: string, n: string)
    requires '/' !in n
    ensures Join(d, n) == JoinPrefix(d) + n
  {
    assert n == [] || n[0] in n;
  }

  /** Joining a slash-free name onto a directory makes that name the basename. */
  lemma BasenameOfJoin(d: string, n: string)
    requires '/' !in n
    ensures Basename(Join(d, n)) == n
  {
    var x := JoinPrefix(d);
    JoinIsAppend(d, n);
    LastSlashOfAppend(x, n);
    assert (x + n)[|x|..] == n;
  }

  lemma TrimOneSlash(d: string)
    requires d != "" && d[|d| - 1] != '/'
    ensures TrimTrailingSlashes(d + "/") == d
  {
    assert (d + "/")[..|d|] == d;
  }

  /** Joining a slash-free name onto a directory as dirname returns them gives back that directory. */
  lemma DirnameOfJoin(d: string, n: string)
    requires DirShaped(d)
    requires '/' !in n
    ensures Dirname(Join(d, n)) == d
  {
    var x := JoinPrefix(d);
    JoinIsAppend(d, n);
    LastSlashOfAppend(x, n);
    assert (x + n)[..|x|] == x;
    if d != "" && d[|d| - 1] != '/' {
      TrimOneSlash(d);
    } else if d != "" {
      TrimAllSlashes(d);
    }
  }

  /** The stem of a file joined onto a directory is its name without the extension: the name
      pdf_to_jpg gives the output folder of `<d>/<r>.<e>`. */
  lemma StemOfJoin(d: string, r: string, e: string)
    requires '/' !in r && !AllChar(r, '.')
    requires '/' !in e && '.' !in e
    ensures Stem(Join(d, r + "." + e)) == r
  {
    assert '/' !in r + "." + e;
    BasenameOfJoin(d, r + "." + e);
    SplitextOfExtension(r, e);
  }
}
