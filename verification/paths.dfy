/** The slash-separated path helpers of Go's `path` package: `Ext`, `Base`,
    `Dir` and the lexical `Clean` that `Dir` applies. */
module Paths {
  import opened Strings

  predicate IsDotOrSlash(c: char) {
    c == '.' || c == '/'
  }

  /** `path.Ext`: the suffix starting at the last `.` of the final
      `/`-separated element, or empty when that element has no `.`. */
  function Ext(p: string): (r: string)
    ensures HasSuffix(p, r)
    ensures r != [] ==> r[0] == '.' && '/' !in r && '.' !in r[1..]
    ensures r == [] <==> forall k :: LastIndexWhere(p, IsSlash) < k < |p| ==> p[k] != '.'
  {
    var i := LastIndexWhere(p, IsDotOrSlash);
    LastDotOrSlash(p);
    if i >= 0 && p[i] == '.' then
      assert forall k :: 1 <= k < |p[i..]| ==> p[i..][k] == p[i + k];
      p[i..]
    else
      []
  }

  /** The last `.` or `/` is a dot exactly when the final element has a dot. */
  lemma LastDotOrSlash(p: string)
    ensures var i := LastIndexWhere(p, IsDotOrSlash);
            var j := LastIndexWhere(p, IsSlash);
            (i >= 0 && p[i] == '.' ==> j < i)
            && (!(i >= 0 && p[i] == '.') ==> forall k :: j < k < |p| ==> p[k] != '.')
  {
    var i := LastIndexWhere(p, IsDotOrSlash);
    var j := LastIndexWhere(p, IsSlash);
    assert j >= 0 ==> IsDotOrSlash(p[j]);
    assert forall k :: 0 <= k < |p| ==> (p[k] == '.' ==> IsDotOrSlash(p[k]));
  }

  /** `path.Base`: the last element after trailing slashes are removed;
      `.` for the empty path and `/` for a path of slashes only. */
  function Base(p: string): (r: string)
    ensures r != []
  {
    if p == [] then "."
    else
      var q := p[..|p| - TrailingCount(p, IsSlash)];
      var b := q[LastIndexWhere(q, IsSlash) + 1..];
      if b == [] then "/" else b
  }

  /** One step of lexical resolution: `.` and empty elements vanish, `..`
      cancels the previous real element, or is kept when there is none to
      cancel in a relative path, or dropped at the root of an absolute one. */
  function Resolve(segs: seq<string>, stack: seq<string>, rooted: bool): seq<string>
    decreases |segs|
  {
    if segs == [] then stack
    else
      var s := segs[0];
      if s == "" || s == "." then Resolve(segs[1..], stack, rooted)
      else if s == ".." then
        if |stack| > 0 && stack[|stack| - 1] != ".." then Resolve(segs[1..], stack[..|stack| - 1], rooted)
        else if rooted then Resolve(segs[1..], stack, rooted)
        else Resolve(segs[1..], stack + [".."], rooted)
      else Resolve(segs[1..], stack + [s], rooted)
  }

  /** `path.Clean`, in its element-stack formulation. */
  function Clean(p: string): (r: string)
    ensures r != []
  {
    if p == [] then "."
    else
      var rooted := p[0] == '/';
      var body := JoinWith(Resolve(Split(p, '/'), [], rooted), '/');
      if rooted then "/" + body
      else if body == [] then "."
      else body
  }

  /** `path.Dir`: everything up to the last slash, cleaned. */
  function Dir(p: string): (r: string)
    ensures r != []
  {
    Clean(p[..LastIndexWhere(p, IsSlash) + 1])
  }

  /** An element without slashes is its own base name. */
  lemma BaseOfElement(f: string)
    requires f != [] && '/' !in f
    ensures Base(f) == f
  {
    assert !IsSlash(f[|f| - 1]);
    assert TrailingCount(f, IsSlash) == 0;
    assert f[..|f|] == f;
    LastIndexWhereNone(f, IsSlash);
  }

  /** After a slash, a slash-free element is the base name. */
  lemma BaseOfLastElement(d: string, f: string)
    requires f != [] && '/' !in f
    ensures Base(d + "/" + f) == f
  {
    var p := d + "/" + f;
    assert p[|p| - 1] == f[|f| - 1];
    assert !IsSlash(p[|p| - 1]);
    assert TrailingCount(p, IsSlash) == 0;
    assert p[..|p|] == p;
    LastIndexWhereSkipsTail(d + "/", f, IsSlash);
    assert LastIndexWhere(p, IsSlash) == |d|;
    assert p[|d| + 1..] == f;
  }

  /** The directory of a slash-free name is `.`; after a slash it is the
      cleaned prefix. */
  lemma DirOfLastElement(d: string, f: string)
    requires '/' !in f
    ensures Dir(f) == "."
    ensures Dir(d + "/" + f) == Clean(d + "/")
  {
    LastIndexWhereNone(f, IsSlash);
    var p := d + "/" + f;
    LastIndexWhereSkipsTail(d + "/", f, IsSlash);
    assert p[..|d| + 1] == d + "/";
  }

  /** A trailing slash does not change a non-empty path's cleaned form. */
  lemma CleanTrailingSlash(p: string)
    requires p != []
    ensures Clean(p + "/") == Clean(p)
  {
    SplitTrailingSeparator(p, '/');
    assert (p + "/")[0] == p[0];
    ResolveDropsEmptyTail(Split(p, '/'), [], p[0] == '/');
  }

  lemma {:induction false} ResolveDropsEmptyTail(segs: seq<string>, stack: seq<string>, rooted: bool)
    ensures Resolve(segs + [[]], stack, rooted) == Resolve(segs, stack, rooted)
    decreases |segs|
  {
    if segs == [] {
      assert (segs + [[]])[1..] == [];
    } else {
      assert (segs + [[]])[0] == segs[0];
      assert (segs + [[]])[1..] == segs[1..] + [[]];
      var s := segs[0];
      if s == "" || s == "." {
        ResolveDropsEmptyTail(segs[1..], stack, rooted);
      } else if s == ".." {
        if |stack| > 0 && stack[|stack| - 1] != ".." {
          ResolveDropsEmptyTail(segs[1..], stack[..|stack| - 1], rooted);
        } else if rooted {
          ResolveDropsEmptyTail(segs[1..], stack, rooted);
        } else {
          ResolveDropsEmptyTail(segs[1..], stack + [".."], rooted);
        }
      } else {
        ResolveDropsEmptyTail(segs[1..], stack + [s], rooted);
      }
    }
  }

  /** An element that `Clean` keeps as it is. */
  predicate PlainElement(s: string) {
    s != "" && s != "." && s != ".."
  }

  lemma {:induction false} ResolvePlain(segs: seq<string>, stack: seq<string>, rooted: bool)
    requires forall i :: 0 <= i < |segs| ==> PlainElement(segs[i])
    ensures Resolve(segs, stack, rooted) == stack + segs
    decreases |segs|
  {
    if segs != [] {
      assert PlainElement(segs[0]);
      ResolvePlain(segs[1..], stack + [segs[0]], rooted);
      assert stack + [segs[0]] + segs[1..] == stack + segs;
    }
  }

  /** A relative path made of plain elements is already clean. */
  lemma CleanPlainPath(p: string)
    requires p != [] && p[0] != '/'
    requires forall i :: 0 <= i < |Split(p, '/')| ==> PlainElement(Split(p, '/')[i])
    ensures Clean(p) == p
  {
    ResolvePlain(Split(p, '/'), [], false);
    assert [] + Split(p, '/') == Split(p, '/');
  }
}
