/**
 * POSIX path handling as the file server uses it: `str.split("/")`,
 * `"/".join`, `os.path.join` and `os.path.normpath`, and the resolution
 * of a request path against the server root.
 */
module Paths {
  import opened Text

  /** `s.split("/")`: the pieces between slashes, empty ones included. */
  function Split(s: string): (r: seq<string>)
    ensures |r| >= 1
    decreases |s|
  {
    if s == [] then [""]
    else if s[0] == '/' then [""] + Split(s[1..])
    else var t := Split(s[1..]); [[s[0]] + t[0]] + t[1..]
  }

  /** `"/".join(parts)`. */
  function Join(parts: seq<string>): string
    decreases |parts|
  {
    if parts == [] then ""
    else if |parts| == 1 then parts[0]
    else parts[0] + "/" + Join(parts[1..])
  }

  /** No piece of a split holds the separator. */
  lemma {:induction false} SplitPieces(s: string)
    ensures forall i :: 0 <= i < |Split(s)| ==> '/' !in Split(s)[i]
    decreases |s|
  {
    if s != [] {
      SplitPieces(s[1..]);
    }
  }

  lemma {:induction false} SplitNoSlash(a: string)
    requires '/' !in a
    ensures Split(a) == [a]
    decreases |a|
  {
    if a != [] {
      SplitNoSlash(a[1..]);
      assert [a[0]] + a[1..] == a;
    }
  }

  /** Splitting distributes over a separating slash. */
  lemma {:induction false} SplitSlash(a: string, b: string)
    ensures Split(a + "/" + b) == Split(a) + Split(b)
    decreases |a|
  {
    if a == [] {
      assert a + "/" + b == "/" + b;
      assert ("/" + b)[1..] == b;
    } else {
      var s := a + "/" + b;
      assert s[0] == a[0] && s[1..] == a[1..] + "/" + b;
      SplitSlash(a[1..], b);
      if a[0] != '/' {
        GlueHead([a[0]], Split(a[1..]), Split(b));
      }
    }
  }

  lemma GlueHead(x: string, u: seq<string>, v: seq<string>)
    requires |u| >= 1
    ensures [x + (u + v)[0]] + (u + v)[1..] == ([x + u[0]] + u[1..]) + v
  {
    assert (u + v)[0] == u[0] && (u + v)[1..] == u[1..] + v;
  }

  /** Joining pieces that hold no slash and splitting again gives them back. */
  lemma {:induction false} SplitJoin(parts: seq<string>)
    requires |parts| >= 1
    requires forall i :: 0 <= i < |parts| ==> '/' !in parts[i]
    ensures Split(Join(parts)) == parts
    decreases |parts|
  {
    if |parts| == 1 {
      SplitNoSlash(parts[0]);
    } else {
      SplitJoin(parts[1..]);
      SplitSlash(parts[0], Join(parts[1..]));
      SplitNoSlash(parts[0]);
    }
  }

  /** Splitting and joining again gives the text back. */
  lemma {:induction false} JoinSplit(s: string)
    ensures Join(Split(s)) == s
    decreases |s|
  {
    if s != [] {
      JoinSplit(s[1..]);
      var t := Split(s[1..]);
      if s[0] == '/' {
        assert Split(s) == [""] + t;
        assert Split(s)[1..] == t;
      } else {
        var r := Split(s);
        assert r == [[s[0]] + t[0]] + t[1..];
        if |t| > 1 {
          assert r[1..] == t[1..];
        }
      }
      assert [s[0]] + s[1..] == s;
    }
  }

  lemma {:induction false} JoinAppend(a: seq<string>, b: seq<string>)
    requires |a| >= 1 && |b| >= 1
    ensures Join(a + b) == Join(a) + "/" + Join(b)
    decreases |a|
  {
    if |a| > 1 {
      assert (a + b)[1..] == a[1..] + b;
      JoinAppend(a[1..], b);
    }
  }

  /** A path component that survives normalisation. */
  predicate IsSegment(c: string) {
    c != "" && c != "." && c != ".." && '/' !in c
  }

  predicate AllSegments(cs: seq<string>) {
    forall i :: 0 <= i < |cs| ==> IsSegment(cs[i])
  }

  /** The number of slashes `normpath` keeps at the front: POSIX keeps exactly two, not three or more. */
  function InitialSlashes(p: string): nat {
    if StartsWith(p, "/") then
      if StartsWith(p, "//") && !StartsWith(p, "///") then 2 else 1
    else 0
  }

  /**
   * One turn of the component loop of `normpath`: drop an empty or "."
   * component, let ".." cancel the last kept component, keep anything else.
   * On an absolute path a ".." at the top is dropped; on a relative one
   * (or after another kept "..") it is kept.
   */
  function Step(kept: seq<string>, c: string, absolute: bool): seq<string> {
    if c == "" || c == "." then kept
    else if c != ".." || (!absolute && kept == []) || (kept != [] && kept[|kept| - 1] == "..") then kept + [c]
    else if kept != [] then kept[..|kept| - 1]
    else kept
  }

  /** The component loop of `normpath`, run over `comps` after `kept`. */
  function Collapse(kept: seq<string>, comps: seq<string>, absolute: bool): seq<string>
    decreases |comps|
  {
    if comps == [] then kept else Collapse(Step(kept, comps[0], absolute), comps[1..], absolute)
  }

  function Slashes(n: nat): (r: string)
    ensures |r| == n && forall i :: 0 <= i < n ==> r[i] == '/'
  {
    seq(n, _ => '/')
  }

  /** `os.path.normpath(p)` on POSIX. */
  function NormPath(p: string): (r: string)
    ensures r != ""
    ensures StartsWith(p, "/") ==> StartsWith(r, "/")
  {
    if p == "" then "."
    else
      var slashes := InitialSlashes(p);
      var r := Slashes(slashes) + Join(Collapse([], Split(p), slashes > 0));
      assert slashes > 0 ==> r[..1] == "/";
      if r == "" then "." else r
  }

  /** `os.path.join(a, b)` on POSIX for two arguments. */
  function PosixJoin(a: string, b: string): (r: string)
    ensures StartsWith(b, "/") ==> r == b
    ensures !StartsWith(b, "/") ==> StartsWith(r, a)
  {
    if StartsWith(b, "/") then b
    else if a == [] || a[|a| - 1] == '/' then a + b
    else a + "/" + b
  }

  /** The rewrite of the site root to its index document. */
  function RewriteIndex(path: string): string {
    if path == "/" then "/index.html" else path
  }

  /** The file a request path names: `normpath(join(root, path.lstrip("/")))` after the rewrite. */
  function Resolve(root: string, path: string): (r: string)
    ensures StartsWith(root, "/") ==> StartsWith(r, "/")
  {
    var j := PosixJoin(root, LStrip(RewriteIndex(path), '/'));
    assert StartsWith(root, "/") ==> j[..1] == root[..1];
    NormPath(j)
  }

  /** The components of a normal absolute path, after its leading slash. */
  function Components(p: string): seq<string> {
    Split(p)[1..]
  }

  /**
   * What `os.path.abspath("www")` yields: an absolute, normal path,
   * not the file system root, since its last component is `www`.
   */
  predicate IsServerRoot(root: string) {
    StartsWith(root, "/") && |Split(root)| >= 2 && AllSegments(Components(root))
  }

  /** The guard as written: a plain string-prefix test. */
  predicate PrefixGuard(root: string, abspath: string) {
    StartsWith(abspath, root)
  }

  /** The guard as intended: the root itself, or a path strictly below it. */
  predicate WithinRoot(root: string, abspath: string) {
    abspath == root || StartsWith(abspath, root + "/")
  }

  //
  // Lemmas on the component loop
  //

  lemma {:induction false} CollapseConcat(kept: seq<string>, a: seq<string>, b: seq<string>, absolute: bool)
    ensures Collapse(kept, a + b, absolute) == Collapse(Collapse(kept, a, absolute), b, absolute)
    decreases |a|
  {
    if a == [] {
      assert a + b == b;
    } else {
      assert (a + b)[0] == a[0] && (a + b)[1..] == a[1..] + b;
      CollapseConcat(Step(kept, a[0], absolute), a[1..], b, absolute);
    }
  }

  /** Components that are already normal are kept as they are. */
  lemma {:induction false} CollapseSegments(kept: seq<string>, segs: seq<string>, absolute: bool)
    requires AllSegments(segs)
    ensures Collapse(kept, segs, absolute) == kept + segs
    decreases |segs|
  {
    if segs != [] {
      CollapseSegments(kept + [segs[0]], segs[1..], absolute);
      assert kept + [segs[0]] + segs[1..] == kept + segs;
    }
  }

  /** On an absolute path the loop only ever keeps normal components. */
  lemma {:induction false} CollapseNormal(kept: seq<string>, comps: seq<string>)
    requires AllSegments(kept)
    requires forall i :: 0 <= i < |comps| ==> '/' !in comps[i]
    ensures AllSegments(Collapse(kept, comps, true))
    decreases |comps|
  {
    if comps != [] {
      assert AllSegments(Step(kept, comps[0], true));
      CollapseNormal(Step(kept, comps[0], true), comps[1..]);
    }
  }

  /** Without ".." components nothing already kept is cancelled. */
  lemma {:induction false} CollapseExtends(kept: seq<string>, comps: seq<string>, absolute: bool)
    requires forall i :: 0 <= i < |comps| ==> comps[i] != ".."
    ensures kept <= Collapse(kept, comps, absolute)
    decreases |comps|
  {
    if comps != [] {
      CollapseExtends(Step(kept, comps[0], absolute), comps[1..], absolute);
    }
  }

  //
  // Lemmas on joined paths
  //

  lemma JoinHead(cs: seq<string>)
    requires |cs| >= 1 && cs[0] != ""
    ensures Join(cs) != "" && Join(cs)[0] == cs[0][0]
  {
  }

  lemma JoinLast(cs: seq<string>)
    requires |cs| >= 1 && cs[|cs| - 1] != ""
    ensures Join(cs) != "" && Join(cs)[|Join(cs)| - 1] == cs[|cs| - 1][|cs[|cs| - 1]| - 1]
  {
    if |cs| > 1 {
      assert cs == cs[..|cs| - 1] + [cs[|cs| - 1]];
      JoinAppend(cs[..|cs| - 1], [cs[|cs| - 1]]);
    }
  }

  /** A server root is a slash followed by its components, and ends in none. */
  lemma RootShape(root: string)
    requires IsServerRoot(root)
    ensures Split(root) == [""] + Components(root)
    ensures root == "/" + Join(Components(root))
    ensures |root| >= 2 && root[1] != '/' && root[|root| - 1] != '/'
  {
    var rs := Components(root);
    RootSplit(root);
    RootJoin(root);
    JoinHead(rs);
    JoinLast(rs);
  }

  lemma RootSplit(p: string)
    requires StartsWith(p, "/")
    ensures Split(p) == [""] + Split(p[1..]) && Components(p) == Split(p[1..])
  {
  }

  lemma RootJoin(root: string)
    requires IsServerRoot(root)
    ensures root == "/" + Join(Components(root))
  {
    var rs := Components(root);
    RootSplit(root);
    JoinSplit(root);
    JoinCons("", rs);
  }

  lemma JoinCons(c: string, cs: seq<string>)
    requires |cs| >= 1
    ensures Join([c] + cs) == c + "/" + Join(cs)
  {
    assert ([c] + cs)[1..] == cs;
  }

  /** The components `Resolve` arrives at, below the file system root. */
  function ResolvedComponents(root: string, path: string): seq<string> {
    Collapse(Components(root), Split(LStrip(RewriteIndex(path), '/')), true)
  }

  lemma JoinUnderRoot(root: string, b: string)
    requires IsServerRoot(root)
    requires b == [] || b[0] != '/'
    ensures PosixJoin(root, b) == root + "/" + b
    ensures InitialSlashes(root + "/" + b) == 1
  {
    RootShape(root);
    var j := root + "/" + b;
    assert j[0] == '/' && j[1] == root[1];
    assert StartsWith(j, "/") && !StartsWith(j, "//");
  }

  lemma SplitUnderRoot(root: string, b: string)
    requires IsServerRoot(root)
    ensures Split(root + "/" + b) == [""] + Components(root) + Split(b)
  {
    RootShape(root);
    SplitSlash(root, b);
  }

  lemma CollapseUnderRoot(rs: seq<string>, cs: seq<string>)
    requires AllSegments(rs)
    ensures Collapse([], [""] + rs + cs, true) == Collapse(rs, cs, true)
  {
    CollapseConcat([], [""] + rs, cs, true);
    CollapseConcat([], [""], rs, true);
    assert Collapse([], [""], true) == [];
    CollapseSegments([], rs, true);
    assert [] + rs == rs;
  }

  /**
   * Resolution runs the component loop over the request path, starting
   * from the root's own components, and yields a normal absolute path.
   */
  lemma ResolveShape(root: string, path: string)
    requires IsServerRoot(root)
    ensures Resolve(root, path) == "/" + Join(ResolvedComponents(root, path))
    ensures AllSegments(ResolvedComponents(root, path))
  {
    var b := LStrip(RewriteIndex(path), '/');
    var j := root + "/" + b;
    var rs := Components(root);
    var cs := Split(b);
    SplitUnderRoot(root, b);
    CollapseUnderRoot(rs, cs);
    assert Split(j) == [""] + rs + cs;
    assert Collapse([], [""] + rs + cs, true) == Collapse(rs, cs, true);
    assert Collapse([], Split(j), true) == Collapse(rs, cs, true);
    JoinUnderRoot(root, b);
    var slashes := InitialSlashes(j);
    assert slashes == 1;
    assert Slashes(1) == "/";
    var r := Slashes(slashes) + Join(Collapse([], Split(j), slashes > 0));
    assert r == "/" + Join(Collapse(rs, cs, true));
    assert NormPath(j) == r;
    assert Resolve(root, path) == NormPath(j);
    SplitPieces(b);
    CollapseNormal(rs, cs);
  }

  /**
   * For normal paths the intended guard is exactly a component-wise
   * prefix test: the resolved path lies in the root's directory tree.
   */
  lemma WithinRootIffPrefix(rs: seq<string>, ks: seq<string>)
    requires |rs| >= 1 && AllSegments(rs) && AllSegments(ks)
    ensures WithinRoot("/" + Join(rs), "/" + Join(ks)) <==> rs <= ks
  {
    if rs <= ks {
      PrefixIsWithin(rs, ks);
    }
    if WithinRoot("/" + Join(rs), "/" + Join(ks)) {
      WithinIsPrefix(rs, ks);
    }
  }

  lemma PrefixIsWithin(rs: seq<string>, ks: seq<string>)
    requires |rs| >= 1 && rs <= ks
    ensures WithinRoot("/" + Join(rs), "/" + Join(ks))
  {
    if |ks| > |rs| {
      var tail := ks[|rs|..];
      assert ks == rs + tail;
      JoinAppend(rs, tail);
      SlashConcatPrefix(Join(rs), Join(tail));
    } else {
      assert ks == rs;
    }
  }

  lemma SlashConcatPrefix(r: string, t: string)
    ensures StartsWith("/" + (r + "/" + t), "/" + r + "/")
  {
    assert ("/" + (r + "/" + t))[..|r| + 2] == "/" + r + "/";
  }

  lemma WithinStrings(r: string, k: string)
    requires WithinRoot("/" + r, "/" + k)
    ensures k == r || (|k| > |r| && k == r + "/" + k[|r| + 1..])
  {
    var root, abs := "/" + r, "/" + k;
    if abs != root {
      assert abs[..|root| + 1] == root + "/";
      assert k[..|r| + 1] == abs[1..|root| + 1] == (root + "/")[1..] == r + "/";
      assert k == k[..|r| + 1] + k[|r| + 1..];
    } else {
      assert k == abs[1..] == root[1..] == r;
    }
  }

  lemma WithinIsPrefix(rs: seq<string>, ks: seq<string>)
    requires |rs| >= 1 && AllSegments(rs) && AllSegments(ks)
    requires WithinRoot("/" + Join(rs), "/" + Join(ks))
    ensures rs <= ks
  {
    var r, k := Join(rs), Join(ks);
    WithinStrings(r, k);
    JoinHead(rs);
    assert ks != [] by {
      assert |r| >= 1;
    }
    SplitJoin(ks);
    SplitJoin(rs);
    if k == r {
      assert ks == Split(k) == Split(r) == rs;
    } else {
      var rest := k[|r| + 1..];
      SplitSlash(r, rest);
      assert ks == Split(k) == rs + Split(rest);
    }
  }

  /** The intended guard admits exactly the request paths that resolve under the root. */
  lemma ResolveWithinRoot(root: string, path: string)
    requires IsServerRoot(root)
    ensures WithinRoot(root, Resolve(root, path)) <==> Components(root) <= ResolvedComponents(root, path)
  {
    ResolveShape(root, path);
    RootShape(root);
    WithinRootIffPrefix(Components(root), ResolvedComponents(root, path));
  }

  /** A request path without ".." components never leaves the root, under the intended guard. */
  lemma NoParentStaysWithin(root: string, path: string)
    requires IsServerRoot(root)
    requires ".." !in Split(LStrip(RewriteIndex(path), '/'))
    ensures WithinRoot(root, Resolve(root, path))
  {
    CollapseExtends(Components(root), Split(LStrip(RewriteIndex(path), '/')), true);
    ResolveWithinRoot(root, path);
  }

  /** The intended guard is stronger than the written one: it rejects everything the latter does. */
  lemma WithinRootPassesPrefixGuard(root: string, abspath: string)
    requires WithinRoot(root, abspath)
    ensures PrefixGuard(root, abspath)
  {
    if abspath != root {
      assert abspath[..|root|] == (root + "/")[..|root|];
    }
  }

  /** A single normal component below the site root resolves to that file directly under the root. */
  lemma StrippedName(name: string)
    requires IsSegment(name)
    ensures LStrip(RewriteIndex("/" + name), '/') == name
  {
    assert RewriteIndex("/" + name) == "/" + name;
    assert ("/" + name)[1..] == name;
  }

  lemma ResolvedName(root: string, name: string)
    requires IsSegment(name)
    ensures ResolvedComponents(root, "/" + name) == Components(root) + [name]
  {
    StrippedName(name);
    SplitNoSlash(name);
    CollapseSegments(Components(root), [name], true);
  }

  lemma ResolveName(root: string, name: string)
    requires IsServerRoot(root) && IsSegment(name)
    ensures Resolve(root, "/" + name) == root + ("/" + name)
  {
    var rs := Components(root);
    ResolveShape(root, "/" + name);
    ResolvedName(root, name);
    JoinAppend(rs, [name]);
    RootShape(root);
    SlashAssoc(Join(rs), name);
  }

  lemma SlashAssoc(a: string, b: string)
    ensures "/" + (a + "/" + b) == ("/" + a) + ("/" + b)
  {
  }

  /** Only the site root is rewritten, and it is rewritten to a path the rewrite leaves alone. */
  lemma RewriteOnlyRoot(path: string)
    ensures RewriteIndex(path) == path <==> path != "/"
    ensures RewriteIndex(RewriteIndex(path)) == RewriteIndex(path)
  {
  }

  /** The site root resolves to `index.html` directly under the root. */
  lemma RootServesIndex(root: string)
    requires IsServerRoot(root)
    ensures Resolve(root, "/") == root + "/index.html"
  {
    assert IsSegment("index.html");
    ResolveName(root, "index.html");
  }

  //
  // The written guard lets a sibling directory through
  //

  /** The last component of the root: `www`. */
  function RootName(root: string): string
    requires IsServerRoot(root)
  {
    Components(root)[|Components(root)| - 1]
  }

  /** The request path `/../<sibling>/<name>`. */
  function SiblingRequest(sibling: string, name: string): string {
    "/" + (".." + "/" + (sibling + "/" + name))
  }

  lemma StripSlash(q: string)
    requires q != [] && q[0] != '/'
    ensures LStrip(RewriteIndex("/" + q), '/') == q
  {
    var p := "/" + q;
    assert |p| >= 2 && p[0] == '/' && p[1..] == q;
  }

  lemma SplitSibling(sibling: string, name: string)
    requires IsSegment(sibling) && IsSegment(name)
    ensures Split(".." + "/" + (sibling + "/" + name)) == ["..", sibling, name]
  {
    SplitSlash("..", sibling + "/" + name);
    SplitSlash(sibling, name);
    SplitNoSlash("..");
    SplitNoSlash(sibling);
    SplitNoSlash(name);
  }

  /** On an absolute path ".." drops the last normal component. */
  lemma StepParent(rs: seq<string>)
    requires |rs| >= 1 && AllSegments(rs)
    ensures Step(rs, "..", true) == rs[..|rs| - 1]
  {
    assert IsSegment(rs[|rs| - 1]);
  }

  lemma ResolvedSibling(root: string, sibling: string, name: string)
    requires IsServerRoot(root) && IsSegment(sibling) && IsSegment(name)
    ensures var rs := Components(root);
      ResolvedComponents(root, SiblingRequest(sibling, name)) == rs[..|rs| - 1] + [sibling, name]
  {
    var rs := Components(root);
    var up := rs[..|rs| - 1];
    var q := ".." + "/" + (sibling + "/" + name);
    assert q[0] == '.';
    StripSlash(q);
    SplitSibling(sibling, name);
    assert ["..", sibling, name] == [".."] + [sibling, name];
    CollapseConcat(rs, [".."], [sibling, name], true);
    assert Collapse(rs, [".."], true) == Step(rs, "..", true);
    StepParent(rs);
    assert AllSegments([sibling, name]);
    CollapseSegments(up, [sibling, name], true);
  }

  /** Extending the last component extends the joined path. */
  lemma JoinPrefix(up: seq<string>, w: string, w2: string, tail: seq<string>)
    requires w <= w2 && |tail| >= 1
    ensures Join(up + [w]) <= Join(up + [w2] + tail)
  {
    JoinAppend(up + [w2], tail);
    JoinLastPrefix(up, w, w2);
    PrefixTrans(Join(up + [w]), Join(up + [w2]), "/" + Join(tail));
  }

  lemma JoinLastPrefix(up: seq<string>, w: string, w2: string)
    requires w <= w2
    ensures Join(up + [w]) <= Join(up + [w2])
  {
    if up == [] {
      assert up + [w] == [w] && up + [w2] == [w2];
    } else {
      JoinAppend(up, [w]);
      JoinAppend(up, [w2]);
      PrefixPrepend(Join(up) + "/", w, w2);
    }
  }

  lemma PrefixTrans(x: string, y: string, z: string)
    requires x <= y
    ensures x <= y + z
  {
    assert (y + z)[..|x|] == y[..|x|];
  }

  lemma PrefixPrepend(p: string, x: string, y: string)
    requires x <= y
    ensures p + x <= p + y
  {
    assert (p + y)[..|p + x|] == p + y[..|x|];
  }

  lemma SlashPrefix(a: string, b: string)
    requires a <= b
    ensures StartsWith("/" + b, "/" + a)
  {
    assert ("/" + b)[..|a| + 1] == "/" + b[..|a|];
  }

  /**
   * A request that climbs out of the root and into a sibling directory
   * whose name extends the root's own (`/../www-private/secret` under
   * `/srv/www`) resolves outside the root, yet passes the written
   * string-prefix guard; the intended guard rejects it.
   */
  lemma SiblingEscapesPrefixGuard(root: string, suffix: string, name: string)
    requires IsServerRoot(root)
    requires IsSegment(RootName(root) + suffix) && IsSegment(name) && suffix != ""
    ensures var rs := Components(root);
      var abs := Resolve(root, SiblingRequest(RootName(root) + suffix, name));
      && abs == "/" + Join(rs[..|rs| - 1] + [RootName(root) + suffix, name])
      && PrefixGuard(root, abs)
      && !WithinRoot(root, abs)
  {
    SiblingResolves(root, RootName(root) + suffix, name);
    SiblingGuards(root, suffix, name);
  }

  lemma SiblingGuards(root: string, suffix: string, name: string)
    requires IsServerRoot(root)
    requires IsSegment(RootName(root) + suffix) && IsSegment(name) && suffix != ""
    ensures var rs := Components(root);
      var abs := "/" + Join(rs[..|rs| - 1] + [RootName(root) + suffix, name]);
      PrefixGuard(root, abs) && !WithinRoot(root, abs)
  {
    var rs := Components(root);
    var up, w := rs[..|rs| - 1], RootName(root);
    RootShape(root);
    assert rs == up + [w];
    assert AllSegments(up + [w + suffix, name]);
    SiblingPrefix(up, w, suffix, name);
  }

  lemma SiblingResolves(root: string, sibling: string, name: string)
    requires IsServerRoot(root) && IsSegment(sibling) && IsSegment(name)
    ensures var rs := Components(root);
      && Resolve(root, SiblingRequest(sibling, name)) == "/" + Join(rs[..|rs| - 1] + [sibling, name])
      && AllSegments(rs[..|rs| - 1] + [sibling, name])
  {
    ResolveShape(root, SiblingRequest(sibling, name));
    ResolvedSibling(root, sibling, name);
  }

  /** The guards on the components: a sibling that extends the last name is a string prefix match only. */
  lemma SiblingPrefix(up: seq<string>, w: string, suffix: string, name: string)
    requires suffix != "" && AllSegments(up + [w]) && AllSegments(up + [w + suffix, name])
    ensures var root, abs := "/" + Join(up + [w]), "/" + Join(up + [w + suffix, name]);
      PrefixGuard(root, abs) && !WithinRoot(root, abs)
  {
    var rs, ks := up + [w], up + [w + suffix, name];
    WithinRootIffPrefix(rs, ks);
    assert ks[|up|] == w + suffix != w == rs[|up|];
    assert ks == up + [w + suffix] + [name];
    JoinPrefix(up, w, w + suffix, [name]);
    SlashPrefix(Join(rs), Join(ks));
  }

  //
  // normpath is idempotent on absolute paths
  //

  /** On an absolute path `normpath` keeps its leading slashes and only normal components. */
  lemma NormPathAbsolute(p: string)
    requires StartsWith(p, "/")
    ensures var k := InitialSlashes(p);
      && 1 <= k <= 2
      && NormPath(p) == Slashes(k) + Join(Collapse([], Split(p), true))
      && AllSegments(Collapse([], Split(p), true))
  {
    SplitPieces(p);
    CollapseNormal([], Split(p));
  }

  lemma SplitUnderSlashes(k: nat, j: string)
    requires 1 <= k <= 2
    ensures Split(Slashes(k) + j) == (if k == 1 then [""] else ["", ""]) + Split(j)
  {
    if k == 1 {
      assert Slashes(1) + j == "" + "/" + j;
      SplitSlash("", j);
    } else {
      assert Slashes(2) + j == "" + "/" + ("" + "/" + j);
      SplitSlash("", "" + "/" + j);
      SplitSlash("", j);
    }
  }

  lemma InitialSlashesOfNormal(k: nat, segs: seq<string>)
    requires 1 <= k <= 2 && AllSegments(segs)
    ensures InitialSlashes(Slashes(k) + Join(segs)) == k
  {
    var q := Slashes(k) + Join(segs);
    if segs != [] {
      JoinHead(segs);
      assert q[k] == segs[0][0] != '/';
    }
    if k == 1 {
      assert q[..1] == "/";
      assert !StartsWith(q, "//");
    } else {
      assert q[..2] == "//";
      assert !StartsWith(q, "///");
    }
  }

  lemma CollapseNormalPath(k: nat, segs: seq<string>)
    requires 1 <= k <= 2 && AllSegments(segs)
    ensures Collapse([], Split(Slashes(k) + Join(segs)), true) == segs
  {
    SplitUnderSlashes(k, Join(segs));
    var lead: seq<string> := if k == 1 then [""] else ["", ""];
    CollapseConcat([], lead, Split(Join(segs)), true);
    CollapseEmpties(lead);
    CollapseJoined(segs);
  }

  /** Empty components are dropped. */
  lemma CollapseEmpties(lead: seq<string>)
    requires lead == [""] || lead == ["", ""]
    ensures Collapse([], lead, true) == []
  {
    if lead == ["", ""] {
      assert lead[1..] == [""];
    }
  }

  lemma CollapseJoined(segs: seq<string>)
    requires AllSegments(segs)
    ensures Collapse([], Split(Join(segs)), true) == segs
  {
    if segs == [] {
      assert Split(Join(segs)) == [""];
    } else {
      SplitJoin(segs);
      CollapseSegments([], segs, true);
    }
  }

  /** A normal absolute path is its own normal form. */
  lemma NormPathOfNormal(k: nat, segs: seq<string>)
    requires 1 <= k <= 2 && AllSegments(segs)
    ensures NormPath(Slashes(k) + Join(segs)) == Slashes(k) + Join(segs)
  {
    InitialSlashesOfNormal(k, segs);
    CollapseNormalPath(k, segs);
  }

  /** `normpath(normpath(p)) == normpath(p)` for every absolute path. */
  lemma NormPathIdempotent(p: string)
    requires StartsWith(p, "/")
    ensures NormPath(NormPath(p)) == NormPath(p)
  {
    NormPathAbsolute(p);
    NormPathOfNormal(InitialSlashes(p), Collapse([], Split(p), true));
  }
}
