/** The relative path stored in a symbolic link: climb from the link's directory until the current
    directory is a prefix of the target, then descend. Paths are strings, as the generator sees them. */
module SymbolicLink {
  import opened Basics

  // ---------------------------------------------------------------- string operations

  /** Index after the last slash; 0 if there is none. */
  function AfterLastSlash(p: string): (i: nat)
    ensures i <= |p| && (i > 0 ==> p[i - 1] == '/') && '/' !in p[i..]
  {
    if p == "" then 0
    else if p[|p| - 1] == '/' then |p|
    else
      var i := AfterLastSlash(p[..|p| - 1]);
      assert p[i..] == p[..|p| - 1][i..] + [p[|p| - 1]];
      i
  }

  function StripSlashes(p: string): (r: string)
    ensures r <= p && (r != "" ==> r[|r| - 1] != '/') && forall k :: |r| <= k < |p| ==> p[k] == '/'
  {
    if p != "" && p[|p| - 1] == '/' then StripSlashes(p[..|p| - 1]) else p
  }

  /** The directory part, as `posixpath.dirname` computes it. */
  function Dirname(p: string): string {
    var head := p[..AfterLastSlash(p)];
    if StripSlashes(head) == "" then head else StripSlashes(head)
  }

  predicate StartsWith(s: string, prefix: string) {
    prefix <= s
  }

  /** Replaces non-overlapping double slashes from the left, as `str.replace` does. */
  function CollapseSlashes(s: string): string {
    if |s| < 2 then s
    else if s[0] == '/' && s[1] == '/' then "/" + CollapseSlashes(s[2..])
    else [s[0]] + CollapseSlashes(s[1..])
  }

  /** Is `dir` a path prefix of `target`? */
  predicate IsPathPrefixOf(dir: string, target: string) {
    StartsWith(target, if |dir| > 1 then dir + "/" else dir)
  }

  function Ups(k: nat): string {
    if k == 0 then "" else Ups(k - 1) + "../"
  }

  /** An absolute path that starts with exactly one slash. */
  predicate Absolute(p: string) {
    p != "" && p[0] == '/' && (|p| > 1 ==> p[1] != '/')
  }

  lemma DirnameClimbs(p: string)
    requires Absolute(p) && |p| > 1
    ensures Absolute(Dirname(p)) && |Dirname(p)| < |p|
  {
    var i := AfterLastSlash(p);
    assert p[0] == '/' && p[0] in p;
    assert p[0..] == p;
    var head := p[..i];
    assert i < |p| || p[|p| - 1] == '/';
    assert StripSlashes(head) != "" ==> StripSlashes(head)[0] == '/' && (|StripSlashes(head)| > 1 ==> StripSlashes(head)[1] == p[1]);
  }

  // ---------------------------------------------------------------- the generator

  /** The directory the climb ends in, and the number of steps up. */
  function Climb(dir: string, target: string): (r: (string, nat))
    requires Absolute(dir) && target != "" && target[0] == '/'
    ensures IsPathPrefixOf(r.0, target)
    decreases |dir|
  {
    if IsPathPrefixOf(dir, target) then (dir, 0)
    else
      assert |dir| > 1;
      DirnameClimbs(dir);
      var (top, k) := Climb(Dirname(dir), target);
      (top, k + 1)
  }

  /** The directory a link lives in: the name itself if it ends in a slash. */
  function LinkDirectory(link: string): (d: string)
    requires link != "" && link[0] != '/'
    ensures Absolute(d)
  {
    "/" + if link[|link| - 1] != '/' then Dirname(link) else link[..|link| - 1]
  }

  /** What the link would store, before the check that it is relative. */
  function Stored(target: string, link: string): string
    requires target != "" && link != "" && link[0] != '/'
  {
    var (top, k) := Climb(LinkDirectory(link), "/" + target);
    CollapseSlashes(Ups(k) + ("/" + target)[|top|..])
  }

  lemma {:induction false} UpsFront(k: nat)
    ensures Ups(k + 1) == "../" + Ups(k)
  {
    if k != 0 {
      UpsFront(k - 1);
      assert Ups(k + 1) == Ups(k) + "../";
    }
  }

  /** Computes the stored path; the link command refuses an absolute one. */
  method CreateRelativeSymbolicLink(target: string, link: string) returns (r: Result<string>)
    requires target != "" && link != "" && target[0] != '/' && link[0] != '/'
    ensures r.Ok? <==> !StartsWith(Stored(target, link), "/")
    ensures r.Ok? ==> r.value == Stored(target, link)
  {
    hide Dirname, CollapseSlashes, Ups, IsPathPrefixOf;
    var tempPath := LinkDirectory(link);
    var relativePath := "";
    var targetAsAbs := "/" + target;
    ghost var k := 0;
    UpsNone();
    while !IsPathPrefixOf(tempPath, targetAsAbs)
      invariant Absolute(tempPath) && relativePath == Ups(k)
      invariant Climb(LinkDirectory(link), targetAsAbs) ==
                (Climb(tempPath, targetAsAbs).0, Climb(tempPath, targetAsAbs).1 + k)
      decreases |tempPath|
    {
      RootIsPrefix(target);
      assert tempPath != "/";
      DirnameClimbs(tempPath);
      UpsStep(k);
      tempPath := Dirname(tempPath);
      relativePath := relativePath + "../";
      k := k + 1;
    }
    PrefixFits(tempPath, targetAsAbs);
    relativePath := relativePath + targetAsAbs[|tempPath|..];
    relativePath := CollapseSlashes(relativePath);
    if StartsWith(relativePath, "/") { return Err("target is absolute"); }
    r := Ok(relativePath);
  }

  lemma UpsNone()
    ensures Ups(0) == ""
  {}

  lemma UpsStep(k: nat)
    ensures Ups(k + 1) == Ups(k) + "../"
  {}

  lemma RootIsPrefix(target: string)
    ensures IsPathPrefixOf("/", "/" + target)
  {}

  lemma PrefixFits(dir: string, target: string)
    requires IsPathPrefixOf(dir, target)
    ensures |dir| <= |target|
  {}

  // ---------------------------------------------------------------- normalised paths

  /** A path component: not empty, no slash, not a dot entry. */
  ghost predicate Name(c: string) {
    c != "" && '/' !in c && c != "." && c != ".."
  }

  ghost predicate Names(cs: seq<string>) {
    forall i :: 0 <= i < |cs| ==> Name(cs[i])
  }

  /** The components, each with a slash in front. */
  function Slashed(cs: seq<string>): string {
    if cs == [] then "" else "/" + cs[0] + Slashed(cs[1..])
  }

  /** The absolute path with these components. */
  function AbsPath(cs: seq<string>): string {
    if cs == [] then "/" else Slashed(cs)
  }

  /** The relative path with these components. */
  function RelPath(cs: seq<string>): string {
    if cs == [] then "" else Slashed(cs)[1..]
  }

  lemma {:induction false} SlashedAppend(cs: seq<string>, ds: seq<string>)
    ensures Slashed(cs + ds) == Slashed(cs) + Slashed(ds)
    decreases |cs|
  {
    if cs == [] {
      assert cs + ds == ds;
    } else {
      assert (cs + ds)[1..] == cs[1..] + ds;
      SlashedAppend(cs[1..], ds);
    }
  }

  lemma SlashedLast(cs: seq<string>)
    requires cs != []
    ensures Slashed(cs) == Slashed(cs[..|cs| - 1]) + "/" + cs[|cs| - 1]
  {
    hide Slashed;
    var n := |cs| - 1;
    SlashedAppend(cs[..n], [cs[n]]);
    SlashedOne(cs[n]);
    assert cs == cs[..n] + [cs[n]];
    assert Slashed(cs[..n]) + ("/" + cs[n]) == Slashed(cs[..n]) + "/" + cs[n];
  }

  lemma {:induction false} LastSlashAt(s: string, c: string)
    requires '/' !in c
    ensures AfterLastSlash(s + "/" + c) == |s| + 1
    decreases |c|
  {
    var p := s + "/" + c;
    if c != "" {
      var n := |c| - 1;
      assert c == c[..n] + [c[n]];
      assert p[..|p| - 1] == s + "/" + c[..n];
      assert p[|p| - 1] == c[n];
      LastSlashAt(s, c[..n]);
    } else {
      assert p == s + "/";
    }
  }

  /** Going up one directory drops the last component. */
  lemma DirnameOfAbsPath(cs: seq<string>)
    requires cs != [] && Names(cs)
    ensures Dirname(AbsPath(cs)) == AbsPath(cs[..|cs| - 1])
  {
    var n := |cs| - 1;
    var init := Slashed(cs[..n]);
    SlashedLast(cs);
    LastSlashAt(init, cs[n]);
    DirnameOfHead(AbsPath(cs), init, cs[n]);
    if n > 0 {
      SlashedLast(cs[..n]);
      assert init[|init| - 1] == cs[n - 1][|cs[n - 1]| - 1];
      assert cs[n - 1][|cs[n - 1]| - 1] in cs[n - 1];
    }
  }

  /** The directory of `s/c` is `s`, or the root if `s` is empty. */
  lemma DirnameOfHead(p: string, s: string, c: string)
    requires p == s + "/" + c && '/' !in c
    ensures s == "" ==> Dirname(p) == "/"
    ensures s != "" && s[|s| - 1] != '/' ==> Dirname(p) == s
  {
    LastSlashAt(s, c);
    var head := p[..AfterLastSlash(p)];
    assert head == s + "/";
    assert head[..|head| - 1] == s;
    assert StripSlashes(head) == StripSlashes(s);
  }

  /** Two names followed by slashes match only if they are equal. */
  lemma NamePrefix(a: string, x: string, b: string, y: string)
    requires '/' !in a && '/' !in b && x != "" && x[0] == '/' && (y == "" || y[0] == '/')
    ensures a + x <= b + y <==> a == b && x <= y
  {
    if a + x <= b + y {
      var s, t := a + x, b + y;
      assert s[|a|] == '/' && t[|a|] == '/';
      assert forall i :: 0 <= i < |a| ==> s[i] == a[i] && a[i] in a;
      assert forall i :: 0 <= i < |b| ==> t[i] == b[i] && b[i] in b;
      assert |b| < |t| ==> t[|b|] == '/';
      assert |a| == |b|;
      assert a == s[..|a|] == t[..|a|] == b;
      assert x == s[|a|..] && y == t[|a|..];
      assert forall i :: 0 <= i < |x| ==> x[i] == s[|a| + i] && t[|a| + i] == y[i];
    }
    if a == b && x <= y {
      assert b + y == a + x + y[|x|..];
    }
  }

  lemma SlashedOne(c: string)
    ensures Slashed([c]) == "/" + c
  {
    assert Slashed([c]) == "/" + c + Slashed([]);
  }

  /** Among names, the string test is the test for a proper prefix of components. */
  lemma {:induction false} PrefixOfComponents(ds: seq<string>, ts: seq<string>)
    requires Names(ds) && Names(ts)
    ensures Slashed(ds) + "/" <= Slashed(ts) <==> ds < ts
    decreases |ds|
  {
    if ds == [] {
      assert Slashed(ds) + "/" == "/";
      assert ts != [] ==> Slashed(ts)[0] == '/';
    } else if ts != [] {
      PrefixOfComponents(ds[1..], ts[1..]);
      PrefixStep(ds, ts);
    }
  }

  lemma PrefixStep(ds: seq<string>, ts: seq<string>)
    requires Names(ds) && Names(ts) && ds != [] && ts != []
    requires Slashed(ds[1..]) + "/" <= Slashed(ts[1..]) <==> ds[1..] < ts[1..]
    ensures Slashed(ds) + "/" <= Slashed(ts) <==> ds < ts
  {
    hide Slashed, Name, Names;
    var x, y := Slashed(ds[1..]) + "/", Slashed(ts[1..]);
    SlashedStart(ds[1..]);
    SlashedStart(ts[1..]);
    FirstName(ds);
    FirstName(ts);
    NamePrefix(ds[0], x, ts[0], y);
    SlashedStep(ds);
    SlashedStep(ts);
    assert Slashed(ds) + "/" == "/" + (ds[0] + x);
    assert Slashed(ts) == "/" + (ts[0] + y);
    ConsPrefix("/", ds[0] + x, ts[0] + y);
    ProperPrefixStep(ds, ts);
  }

  lemma ProperPrefixStep<T>(ds: seq<T>, ts: seq<T>)
    requires ds != [] && ts != []
    ensures ds < ts <==> ds[0] == ts[0] && ds[1..] < ts[1..]
  {
    ConsPrefix([ds[0]], ds[1..], ts[1..]);
    assert ds == [ds[0]] + ds[1..] && ts == [ts[0]] + ts[1..];
  }

  lemma SlashedStart(cs: seq<string>)
    ensures cs == [] ==> Slashed(cs) == ""
    ensures cs != [] ==> Slashed(cs) != "" && Slashed(cs)[0] == '/'
  {}

  lemma FirstName(cs: seq<string>)
    requires cs != [] && Names(cs)
    ensures '/' !in cs[0] && cs[0] != ""
  {
    assert Name(cs[0]);
  }

  lemma SlashedStep(cs: seq<string>)
    requires cs != []
    ensures Slashed(cs) == "/" + cs[0] + Slashed(cs[1..])
  {}

  lemma ConsPrefix<T>(h: seq<T>, u: seq<T>, v: seq<T>)
    ensures h + u <= h + v <==> u <= v
  {
    if h + u <= h + v {
      assert forall i :: 0 <= i < |u| ==> u[i] == (h + u)[|h| + i] && v[i] == (h + v)[|h| + i];
    }
  }

  // ---------------------------------------------------------------- the climb

  /** The innermost directory at or above `ds` that is the root or properly contains the target. */
  ghost function Top(ds: seq<string>, ts: seq<string>): (r: seq<string>)
    ensures r <= ds && (r == [] || r < ts)
    decreases |ds|
  {
    if ds == [] || ds < ts then ds else Top(ds[..|ds| - 1], ts)
  }

  lemma AbsPathShape(ds: seq<string>)
    requires Names(ds)
    ensures Absolute(AbsPath(ds)) && (|AbsPath(ds)| > 1 <==> ds != [])
  {
    if ds != [] {
      FirstName(ds);
      SlashedStep(ds);
      assert AbsPath(ds)[1] == ds[0][0] && ds[0][0] in ds[0];
    }
  }

  lemma PrefixTest(ds: seq<string>, ts: seq<string>)
    requires Names(ds) && Names(ts) && ts != []
    ensures IsPathPrefixOf(AbsPath(ds), Slashed(ts)) <==> ds == [] || ds < ts
  {
    AbsPathShape(ds);
    PrefixOfComponents(ds, ts);
    SlashedStart(ts);
  }

  lemma {:induction false} ClimbToTop(ds: seq<string>, ts: seq<string>)
    requires Names(ds) && Names(ts) && ts != []
    ensures Absolute(AbsPath(ds)) && Slashed(ts) != "" && Slashed(ts)[0] == '/'
    ensures Climb(AbsPath(ds), Slashed(ts)) == (AbsPath(Top(ds, ts)), |ds| - |Top(ds, ts)|)
    decreases |ds|
  {
    hide Dirname, IsPathPrefixOf, AbsPath, Slashed, Absolute;
    AbsPathShape(ds);
    SlashedStart(ts);
    PrefixTest(ds, ts);
    if !(ds == [] || ds < ts) {
      DirnameOfAbsPath(ds);
      ClimbToTop(ds[..|ds| - 1], ts);
    }
  }

  lemma LastName(cs: seq<string>, n: nat)
    requires Names(cs) && n < |cs|
    ensures cs[n] != "" && '/' !in cs[n] && cs[n][|cs[n]| - 1] != '/'
  {
    assert Name(cs[n]);
    assert cs[n][|cs[n]| - 1] in cs[n];
  }

  /** `RelPath` from the back. */
  lemma RelPathLast(ls: seq<string>)
    requires ls != [] && Names(ls)
    ensures |ls| == 1 ==> RelPath(ls) == ls[0]
    ensures |ls| > 1 ==> RelPath(ls) == RelPath(ls[..|ls| - 1]) + "/" + ls[|ls| - 1]
    ensures RelPath(ls) != "" && RelPath(ls)[|RelPath(ls)| - 1] != '/'
  {
    var n := |ls| - 1;
    hide Names, Name;
    LastName(ls, n);
    SlashedLast(ls);
    if n > 0 {
      SlashedStart(ls[..n]);
    } else {
      assert ls[..n] == [];
    }
  }

  /** The directory of a link named by components, as a file or with a final slash. */
  lemma LinkDirectoryIs(ls: seq<string>)
    requires ls != [] && Names(ls)
    ensures RelPath(ls) != "" && RelPath(ls)[0] != '/'
    ensures LinkDirectory(RelPath(ls)) == AbsPath(ls[..|ls| - 1])
    ensures LinkDirectory(RelPath(ls) + "/") == AbsPath(ls)
  {
    hide Slashed, RelPath, Name, Dirname, NoDouble;
    var n, p := |ls| - 1, RelPath(ls);
    RelPathShape(ls);
    RelPathLast(ls);
    LastName(ls, n);
    assert (p + "/")[..|p|] == p;
    if n == 0 {
      NoSlashDirname(p);
    } else {
      RelPathLast(ls[..n]);
      RelPathShape(ls[..n]);
      DirnameOfHead(p, RelPath(ls[..n]), ls[n]);
    }
  }

  lemma NoSlashDirname(p: string)
    requires '/' !in p
    ensures Dirname(p) == ""
  {
    assert AfterLastSlash(p) == 0;
  }

  // ---------------------------------------------------------------- double slashes

  ghost predicate NoDouble(s: string) {
    forall i :: 0 <= i < |s| - 1 ==> !(s[i] == '/' && s[i + 1] == '/')
  }

  lemma {:induction false} CollapseNone(s: string)
    requires NoDouble(s)
    ensures CollapseSlashes(s) == s
  {
    if |s| >= 2 {
      var t := s[1..];
      assert forall i :: 0 <= i < |t| ==> t[i] == s[i + 1];
      CollapseNone(t);
    }
  }

  /** One extra slash after a final slash disappears. */
  lemma {:induction false} CollapseOne(u: string, r: string)
    requires u != "" && u[|u| - 1] == '/' && NoDouble(u + r)
    ensures CollapseSlashes(u + "/" + r) == u + r
    decreases |u|
  {
    var s := u + "/" + r;
    if |u| == 1 {
      assert s[2..] == r;
      assert forall i :: 0 <= i < |r| ==> r[i] == (u + r)[i + 1];
      CollapseNone(r);
    } else {
      var v := u[1..];
      assert s[1..] == v + "/" + r;
      assert forall i :: 0 <= i < |v + r| ==> (v + r)[i] == (u + r)[i + 1];
      assert s[0] == (u + r)[0] && s[1] == (u + r)[1];
      CollapseOne(v, r);
    }
  }

  lemma CollapseFirst(s: string)
    requires s != ""
    ensures CollapseSlashes(s) != "" && CollapseSlashes(s)[0] == s[0]
  {}

  lemma {:induction false} UpsShape(k: nat)
    ensures NoDouble(Ups(k)) && (k > 0 ==> Ups(k) != "" && Ups(k)[0] == '.' && Ups(k)[|Ups(k)| - 1] == '/')
  {
    if k > 0 {
      UpsShape(k - 1);
      assert Ups(k) == Ups(k - 1) + "../";
    }
  }

  lemma {:induction false} SlashedNoDouble(cs: seq<string>)
    requires Names(cs)
    ensures NoDouble(Slashed(cs)) && (cs != [] ==> Slashed(cs)[|Slashed(cs)| - 1] != '/')
    decreases |cs|
  {
    if cs != [] {
      var tl := Slashed(cs[1..]);
      SlashedNoDouble(cs[1..]);
      SlashedStep(cs);
      FirstName(cs);
      assert forall i :: 0 <= i < |cs[0]| ==> cs[0][i] in cs[0];
      assert Slashed(cs) == "/" + cs[0] + tl;
    }
  }

  lemma RelPathShape(cs: seq<string>)
    requires cs != [] && Names(cs)
    ensures RelPath(cs) != "" && RelPath(cs)[0] != '/' && NoDouble(RelPath(cs)) && Slashed(cs) == "/" + RelPath(cs)
  {
    SlashedNoDouble(cs);
    SlashedStep(cs);
    FirstName(cs);
    var p, q := RelPath(cs), Slashed(cs);
    assert forall i :: 0 <= i < |p| ==> p[i] == q[i + 1];
    assert p[0] == cs[0][0] && cs[0][0] in cs[0];
  }

  lemma NoDoubleAppend(u: string, r: string)
    requires NoDouble(u) && NoDouble(r) && (r == "" || r[0] != '/')
    ensures NoDouble(u + r)
  {}

  // ---------------------------------------------------------------- what is stored

  /** Collapsing the double slash that appears when the climb ends below the root. */
  lemma CollapseJoin(k: nat, us: seq<string>)
    requires Names(us) && us != []
    ensures CollapseSlashes(Ups(k) + RelPath(us)) == Ups(k) + RelPath(us)
    ensures k > 0 ==> CollapseSlashes(Ups(k) + Slashed(us)) == Ups(k) + RelPath(us)
    ensures StartsWith(CollapseSlashes(Slashed(us)), "/")
    ensures !StartsWith(Ups(k) + RelPath(us), "/")
  {
    hide Slashed, RelPath, CollapseSlashes, NoDouble, Ups, Name, Names;
    RelPathShape(us);
    UpsShape(k);
    UpsNone();
    NoDoubleAppend(Ups(k), RelPath(us));
    CollapseNone(Ups(k) + RelPath(us));
    CollapseFirst(Slashed(us));
    assert k == 0 ==> Ups(k) + RelPath(us) == RelPath(us);
    assert Ups(k) + ("/" + RelPath(us)) == Ups(k) + "/" + RelPath(us);
    if k > 0 {
      CollapseOne(Ups(k), RelPath(us));
    }
  }

  /** The stored path for a link in directory `ds`: steps up, then the rest of the target; but with a
      leading slash if no step up was needed from a directory other than the root. */
  lemma StoredIs(ts: seq<string>, ds: seq<string>, link: string)
    requires Names(ts) && ts != [] && Names(ds) && link != "" && link[0] != '/' && LinkDirectory(link) == AbsPath(ds)
    requires RelPath(ts) != ""
    ensures var top := Top(ds, ts);
            && (ds == [] || top != ds ==> Stored(RelPath(ts), link) == Ups(|ds| - |top|) + RelPath(ts[|top|..]))
            && (ds != [] && top == ds ==> StartsWith(Stored(RelPath(ts), link), "/"))
  {
    hide Slashed, RelPath, CollapseSlashes, LinkDirectory, NoDouble, Ups, Name, Names, StartsWith, Climb, AbsPath;
    var top := Top(ds, ts);
    var k, us := |ds| - |top|, ts[|top|..];
    RelPathShape(ts);
    ClimbToTop(ds, ts);
    NamesDrop(ts, |top|);
    Remainder(top, ts);
    CollapseJoin(k, us);
    UpsNone();
    assert k == 0 ==> Ups(k) + Slashed(us) == Slashed(us);
    assert top == [] ==> us == ts;
  }

  lemma NamesDrop(ts: seq<string>, n: nat)
    requires Names(ts) && n <= |ts|
    ensures Names(ts[n..])
  {}

  lemma Remainder(top: seq<string>, ts: seq<string>)
    requires top == [] || top < ts
    requires ts != []
    ensures |AbsPath(top)| <= |Slashed(ts)|
    ensures Slashed(ts)[|AbsPath(top)|..] == if top == [] then RelPath(ts) else Slashed(ts[|top|..])
  {
    if top != [] {
      assert ts == top + ts[|top|..];
      SlashedAppend(top, ts[|top|..]);
    }
  }

  // ---------------------------------------------------------------- resolving the link

  function FirstSlash(s: string): (i: nat)
    ensures i <= |s| && '/' !in s[..i] && (i < |s| ==> s[i] == '/')
  {
    if s == "" || s[0] == '/' then 0
    else
      var i := FirstSlash(s[1..]);
      assert s[..i + 1] == [s[0]] + s[1..][..i];
      i + 1
  }

  function Enter(dir: seq<string>, c: string): seq<string> {
    if c == "" || c == "." then dir
    else if c == ".." then (if dir == [] then [] else dir[..|dir| - 1])
    else dir + [c]
  }

  /** The path reached by following `path` from directory `dir`. */
  function Resolve(dir: seq<string>, path: string): seq<string>
    decreases |path|
  {
    var i := FirstSlash(path);
    if i == |path| then Enter(dir, path) else Resolve(Enter(dir, path[..i]), path[i + 1..])
  }

  lemma {:induction false} FirstSlashAt(c: string, s: string)
    requires '/' !in c
    ensures FirstSlash(c + "/" + s) == |c|
    decreases |c|
  {
    if c != "" {
      assert c[0] in c;
      assert (c + "/" + s)[1..] == c[1..] + "/" + s;
      FirstSlashAt(c[1..], s);
    }
  }

  lemma ResolveStep(dir: seq<string>, c: string, s: string)
    requires '/' !in c
    ensures Resolve(dir, c + "/" + s) == Resolve(Enter(dir, c), s)
  {
    var p := c + "/" + s;
    FirstSlashAt(c, s);
    assert p[..|c|] == c && p[|c| + 1..] == s;
  }

  lemma {:induction false} ResolveUps(ds: seq<string>, k: nat, s: string)
    requires k <= |ds|
    ensures Resolve(ds, Ups(k) + s) == Resolve(ds[..|ds| - k], s)
    decreases k
  {
    hide Resolve, Ups;
    if k == 0 {
      UpsNone();
      assert Ups(0) + s == s && ds[..|ds|] == ds;
    } else {
      UpsFront(k - 1);
      var t := Ups(k - 1) + s;
      assert Ups(k) + s == ".." + "/" + t;
      ResolveStep(ds, "..", t);
      ResolveUps(ds[..|ds| - 1], k - 1, s);
      assert ds[..|ds| - 1][..|ds| - k] == ds[..|ds| - k];
    }
  }

  lemma ResolveName(ds: seq<string>, c: string)
    requires Name(c)
    ensures Resolve(ds, c) == ds + [c] && Enter(ds, c) == ds + [c]
  {
    var i := FirstSlash(c);
    assert c[..i] <= c;
    assert i == |c|;
  }

  lemma RelPathStep(cs: seq<string>)
    requires cs != []
    ensures RelPath(cs) == cs[0] + Slashed(cs[1..])
  {
    assert Slashed(cs) == "/" + (cs[0] + Slashed(cs[1..]));
  }

  lemma {:induction false} ResolveNames(ds: seq<string>, cs: seq<string>)
    requires cs != [] && Names(cs)
    ensures Resolve(ds, RelPath(cs)) == ds + cs
    decreases |cs|
  {
    hide Resolve, Enter, RelPath, Slashed, Name, NoDouble;
    var c, tl := cs[0], cs[1..];
    FirstName(cs);
    ResolveName(ds, c);
    RelPathStep(cs);
    SlashedStart(tl);
    if tl == [] {
      assert cs == [c] && RelPath(cs) == c;
    } else {
      RelPathShape(tl);
      assert RelPath(cs) == c + "/" + RelPath(tl);
      ResolveStep(ds, c, RelPath(tl));
      ResolveNames(ds + [c], tl);
      assert ds + [c] + tl == ds + cs;
    }
  }

  /** The stored path is accepted and leads from the link's directory to the target exactly when that
      directory is the root or does not contain the target. Otherwise it is absolute and refused. */
  lemma ResolvesIff(ts: seq<string>, ds: seq<string>, link: string)
    requires Names(ts) && ts != [] && Names(ds) && link != "" && link[0] != '/' && LinkDirectory(link) == AbsPath(ds)
    ensures RelPath(ts) != "" && RelPath(ts)[0] != '/'
    ensures var p := Stored(RelPath(ts), link);
            !StartsWith(p, "/") && Resolve(ds, p) == ts <==> ds == [] || !(ds < ts)
  {
    hide RelPath, LinkDirectory, AbsPath, Stored, Resolve, Names, Ups, NoDouble, Slashed, StartsWith, CollapseSlashes;
    RelPathShape(ts);
    StoredIs(ts, ds, link);
    var top := Top(ds, ts);
    if ds == [] || top != ds {
      var k, us := |ds| - |top|, ts[|top|..];
      NamesDrop(ts, |top|);
      CollapseJoin(k, us);
      ResolveUps(ds, k, RelPath(us));
      ResolveNames(top, us);
      assert ds[..|ds| - k] == top;
      assert top + us == ts;
    }
  }

  /** For a link named by components, written as a file or as a directory. */
  lemma LinksResolve(ts: seq<string>, ls: seq<string>)
    requires Names(ts) && Names(ls) && ts != [] && ls != []
    ensures RelPath(ts) != "" && RelPath(ls) != "" && RelPath(ls)[0] != '/'
    ensures var dir, p := ls[..|ls| - 1], Stored(RelPath(ts), RelPath(ls));
            !StartsWith(p, "/") && Resolve(dir, p) == ts <==> dir == [] || !(dir < ts)
    ensures var p := Stored(RelPath(ts), RelPath(ls) + "/");
            !StartsWith(p, "/") && Resolve(ls, p) == ts <==> !(ls < ts)
  {
    hide RelPath, LinkDirectory, AbsPath, Stored, Resolve, Name;
    LinkDirectoryIs(ls);
    ResolvesIff(ts, ls[..|ls| - 1], RelPath(ls));
    assert (RelPath(ls) + "/")[0] == RelPath(ls)[0];
    ResolvesIff(ts, ls, RelPath(ls) + "/");
  }
}
