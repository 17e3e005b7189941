/** The WebDAV client wrapper: path joining, the directory walk behind
    `Mkdir`, the slash trimming of `Create` and `Exists`, and the auth
    dispatch of `New`. The remote server is an oracle that answers each
    request given everything asked before, so the walk and the uploads are
    recorded as a trace of request/reply exchanges. */
module WebDav {
  import opened Types
  import opened Strings
  import Paths

  datatype Request =
    | Mkcol(path: string)               // create a collection (directory)
    | Stat(path: string)                // look a path up
    | Put(path: string, data: Bytes)    // write a file

  /** A remote answer; `isDir` is only meaningful for `Stat`. */
  datatype Reply = Success(isDir: bool) | Failure

  datatype Exchange = Exchange(req: Request, reply: Reply)

  /** The remote server: its reply to a request after a given history. */
  type Store = (seq<Exchange>, Request) -> Reply

  /** A value computed together with the exchanges that computing it added. */
  datatype Io<+T> = Io(trace: seq<Exchange>, value: T)

  /** Every exchange from position `from` on carries the store's reply to its
      request given the exchanges before it. */
  ghost predicate Answered(store: Store, t: seq<Exchange>, from: nat) {
    forall k :: from <= k < |t| ==> t[k].reply == store(t[..k], t[k].req)
  }

  /** Sends one request and records the exchange. */
  function Send(store: Store, h: seq<Exchange>, req: Request): (t: seq<Exchange>)
    ensures |t| == |h| + 1 && Extends(h, t)
    ensures t[|h|].req == req
    ensures Answered(store, t, |h|)
  {
    assert (h + [Exchange(req, store(h, req))])[..|h|] == h;
    h + [Exchange(req, store(h, req))]
  }

  /** Extending an answered trace by answered exchanges keeps it answered. */
  lemma AnsweredStep(store: Store, t: seq<Exchange>, u: seq<Exchange>, from: nat)
    requires Extends(t, u) && from <= |t|
    requires Answered(store, t, from) && Answered(store, u, |t|)
    ensures Answered(store, u, from)
  {
    forall k | from <= k < |t|
      ensures u[k].reply == store(u[..k], u[k].req)
    {
      assert u[k] == t[k];
      assert u[..k] == t[..k];
    }
  }

  /** `Join`: both arguments lose their surrounding slashes; an empty
      directory yields the file alone, otherwise one slash separates them. */
  function Join(dir: string, file: string): (r: string)
    ensures r == [] || r[0] != '/'
    ensures HasSuffix(r, TrimSlashes(file))
    ensures TrimSlashes(dir) != [] ==> HasPrefix(r, TrimSlashes(dir) + "/")
    ensures TrimSlashes(dir) != [] ==> |r| == |TrimSlashes(dir)| + 1 + |TrimSlashes(file)|
    ensures TrimSlashes(dir) == [] ==> r == TrimSlashes(file)
  {
    var d := TrimSlashes(dir);
    var f := TrimSlashes(file);
    if d == [] then f else d + "/" + f
  }

  /** Names that carry no slash at either end are joined as they are. */
  lemma JoinPlain(dir: string, file: string)
    requires dir != [] && dir[0] != '/' && dir[|dir| - 1] != '/'
    requires file == [] || (file[0] != '/' && file[|file| - 1] != '/')
    ensures Join(dir, file) == dir + "/" + file
  {
    TrimFuncNoop(dir, IsSlash);
    TrimFuncNoop(file, IsSlash);
  }

  /** Splitting a joined path with `path.Dir`/`path.Base` recovers the file
      and the cleaned directory (`.` when the directory was empty). */
  lemma JoinSplitsBack(dir: string, file: string)
    requires file != [] && '/' !in file
    ensures Paths.Base(Join(dir, file)) == file
    ensures Paths.Dir(Join(dir, file))
         == (if TrimSlashes(dir) == [] then "." else Paths.Clean(TrimSlashes(dir)))
  {
    TrimFuncNoop(file, IsSlash);
    var d := TrimSlashes(dir);
    if d == [] {
      Paths.BaseOfElement(file);
      Paths.DirOfLastElement(d, file);
    } else {
      Paths.BaseOfLastElement(d, file);
      Paths.DirOfLastElement(d, file);
      Paths.CleanTrailingSlash(d);
    }
  }

  /** The non-empty elements of a list, in order. */
  function NonEmpty(xs: seq<string>): (r: seq<string>)
    ensures |r| <= |xs|
    ensures forall i :: 0 <= i < |r| ==> r[i] != [] && r[i] in xs
  {
    if xs == [] then []
    else if xs[0] == [] then NonEmpty(xs[1..])
    else [xs[0]] + NonEmpty(xs[1..])
  }

  /** The non-empty `/`-separated elements of a path. */
  function Elements(p: string): (r: seq<string>)
    ensures forall i :: 0 <= i < |r| ==> r[i] != [] && '/' !in r[i]
  {
    NonEmpty(Split(TrimSlashes(p), '/'))
  }

  /** A directory path extended by one element. */
  function Child(cur: string, seg: string): string {
    if cur == [] then seg else cur + "/" + seg
  }

  /** The cumulative prefixes `cur/s1`, `cur/s1/s2`, ... of a walk. */
  function PrefixesFrom(cur: string, segs: seq<string>): (r: seq<string>)
    ensures |r| == |segs|
    decreases |segs|
  {
    if segs == [] then [] else [Child(cur, segs[0])] + PrefixesFrom(Child(cur, segs[0]), segs[1..])
  }

  function Prefixes(segs: seq<string>): seq<string> {
    PrefixesFrom("", segs)
  }

  /** Joining one more element to a join of non-empty elements. */
  lemma {:induction false} JoinWithSnoc(xs: seq<string>, y: string, sep: char)
    requires |xs| >= 1
    ensures JoinWith(xs + [y], sep) == JoinWith(xs, sep) + [sep] + y
    decreases |xs|
  {
    if |xs| == 1 {
      assert (xs + [y])[1..] == [y];
    } else {
      assert (xs + [y])[1..] == xs[1..] + [y];
      JoinWithSnoc(xs[1..], y, sep);
    }
  }

  /** The i-th prefix of the walk is the join of the first i+1 elements. */
  lemma {:induction false} PrefixesAreJoins(cur: string, done: seq<string>, segs: seq<string>)
    requires forall i :: 0 <= i < |done| ==> done[i] != []
    requires forall i :: 0 <= i < |segs| ==> segs[i] != []
    requires cur == JoinWith(done, '/')
    ensures forall i :: 0 <= i < |segs| ==> PrefixesFrom(cur, segs)[i] == JoinWith(done + segs[..i + 1], '/')
    decreases |segs|
  {
    if segs != [] {
      var next := Child(cur, segs[0]);
      assert next == JoinWith(done + [segs[0]], '/') by {
        if done == [] {
          assert done + [segs[0]] == [segs[0]];
        } else {
          JoinWithSnoc(done, segs[0], '/');
        }
      }
      PrefixesAreJoins(next, done + [segs[0]], segs[1..]);
      forall i | 0 <= i < |segs|
        ensures PrefixesFrom(cur, segs)[i] == JoinWith(done + segs[..i + 1], '/')
      {
        if i > 0 {
          assert done + [segs[0]] + segs[1..][..i] == done + segs[..i + 1];
        } else {
          assert done + segs[..1] == done + [segs[0]];
        }
      }
    }
  }

  /** The prefixes of a path's elements are the joins of its leading elements. */
  lemma PrefixesOfElements(p: string)
    ensures forall i :: 0 <= i < |Elements(p)| ==> Prefixes(Elements(p))[i] == JoinWith(Elements(p)[..i + 1], '/')
  {
    var segs := Elements(p);
    PrefixesAreJoins("", [], segs);
    forall i | 0 <= i < |segs|
      ensures Prefixes(segs)[i] == JoinWith(segs[..i + 1], '/')
    {
      assert [] + segs[..i + 1] == segs[..i + 1];
    }
  }

  /** `a//b/c` is walked as `a`, `a/b`, `a/b/c`: the empty element between
      the two slashes is skipped. */
  lemma MkdirPrefixesExample()
    ensures Prefixes(Elements("a//b/c")) == ["a", "a/b", "a/b/c"]
  {
    ElementsExample();
    PrefixesExample();
  }

  lemma PrefixesExample()
    ensures Prefixes(["a", "b", "c"]) == ["a", "a/b", "a/b/c"]
  {
    PrefixesTail();
    assert Child("", "a") == "a";
    assert ["a", "b", "c"][1..] == ["b", "c"];
  }

  lemma PrefixesTail()
    ensures PrefixesFrom("a", ["b", "c"]) == ["a/b", "a/b/c"]
  {
    assert Child("a/b", "c") == "a/b/c";
    assert PrefixesFrom("a/b", ["c"]) == ["a/b/c"];
    assert Child("a", "b") == "a/b";
    assert ["b", "c"][1..] == ["c"];
  }

  lemma ElementsExample()
    ensures Elements("a//b/c") == ["a", "b", "c"]
  {
    TrimFuncNoop("a//b/c", IsSlash);
    SplitExample();
    NonEmptyExample();
  }

  lemma NonEmptyExample()
    ensures NonEmpty(["a", "", "b", "c"]) == ["a", "b", "c"]
  {
    var xs: seq<string> := ["a", "", "b", "c"];
    assert xs[1..] == ["", "b", "c"] && xs[1..][1..] == ["b", "c"] && xs[1..][1..][1..] == ["c"];
    assert NonEmpty(["c"]) == ["c"];
    assert NonEmpty(["b", "c"]) == ["b", "c"];
    assert NonEmpty(["", "b", "c"]) == ["b", "c"];
  }

  lemma SplitExample()
    ensures Split("a//b/c", '/') == ["a", "", "b", "c"]
  {
    SplitTail();
    assert "a//b/c"[1..] == "//b/c";
    assert "//b/c"[1..] == "/b/c";
    assert Split("//b/c", '/') == [[]] + Split("/b/c", '/');
    assert [[]] + ["", "b", "c"] == ["", "", "b", "c"];
    assert ['a'] + "" == "a" && ["", "", "b", "c"][1..] == ["", "b", "c"];
  }

  lemma SplitTail()
    ensures Split("/b/c", '/') == ["", "b", "c"]
  {
    SplitNoSeparator("c", '/');
    assert "/b/c"[1..] == "b/c";
    assert "b/c"[1..] == "/c";
    assert "/c"[1..] == "c";
    assert Split("/c", '/') == ["", "c"];
    assert ['b'] + "" == "b" && ["", "c"][1..] == ["c"];
    assert Split("b/c", '/') == ["b", "c"];
  }

  /** The shape of a directory walk over the prefixes `ps`: each prefix gets a
      Mkcol; a failed Mkcol is followed by a Stat of the same prefix; the walk
      moves on only when the Mkcol succeeded or that Stat reports a
      directory, and otherwise stops with that prefix as the error. */
  predicate WalkShape(t: seq<Exchange>, ps: seq<string>, err: Option<string>)
    decreases |ps|
  {
    if ps == [] then t == [] && err == None
    else
      && |t| >= 1
      && t[0].req == Mkcol(ps[0])
      && if t[0].reply.Success? then WalkShape(t[1..], ps[1..], err)
         else
           && |t| >= 2
           && t[1].req == Stat(ps[0])
           && if t[1].reply == Success(true) then WalkShape(t[2..], ps[1..], err)
              else t[2..] == [] && err == Some(ps[0])
  }

  /** Joining `cur` and a slash-free element and trimming slashes is `Child`. */
  lemma ChildTrimmed(cur: string, seg: string)
    requires seg != [] && '/' !in seg
    requires cur == [] || (cur[0] != '/' && cur[|cur| - 1] != '/')
    ensures TrimSlashes(JoinWith([cur, seg], '/')) == Child(cur, seg)
    ensures var c := Child(cur, seg); c != [] && c[0] != '/' && c[|c| - 1] != '/'
  {
    assert seg[0] in seg && seg[|seg| - 1] in seg;
    assert [cur, seg][1..] == [seg];
    var s := cur + "/" + seg;
    assert s[|s| - 1] == seg[|seg| - 1];
    if cur == [] {
      assert s == "/" + seg;
      TrimFuncDropsPrefix(s, IsSlash, 1);
      assert s[1..] == seg;
    } else {
      TrimFuncNoop(s, IsSlash);
    }
  }

  /** The exchanges for one prefix: a Mkcol and, when it fails, a Stat of
      the same prefix; the prefix is usable when the Mkcol succeeded or the
      Stat reports a directory. */
  function MakeCollection(store: Store, h: seq<Exchange>, p: string): (t: seq<Exchange>)
    ensures Extends(h, t) && Answered(store, t, |h|)
    ensures |t| == |h| + 1 || |t| == |h| + 2
    ensures t[|h|].req == Mkcol(p)
    ensures |t| == |h| + 1 <==> t[|h|].reply.Success?
    ensures |t| == |h| + 2 ==> t[|h| + 1].req == Stat(p)
  {
    var h1 := Send(store, h, Mkcol(p));
    if h1[|h|].reply.Success? then h1
    else
      var h2 := Send(store, h1, Stat(p));
      AnsweredStep(store, h1, h2, |h|);
      h2
  }

  /** The prefix handled by `MakeCollection` may be walked past. */
  predicate Usable(h: seq<Exchange>, t: seq<Exchange>)
    requires |h| < |t|
  {
    |t| == |h| + 1 || t[|t| - 1].reply == Success(true)
  }

  /** The loop of `Mkdir` from the current prefix `cur` over the remaining
      raw elements `segs` (empty ones are skipped). Each next prefix is
      `Child(cur, seg)`, which `ChildTrimmed` shows is the slash-trimmed
      join the client computes. */
  function Walk(store: Store, h: seq<Exchange>, segs: seq<string>, cur: string): (r: Io<Option<string>>)
    requires forall i :: 0 <= i < |segs| ==> '/' !in segs[i]
    requires cur == [] || (cur[0] != '/' && cur[|cur| - 1] != '/')
    ensures Extends(h, r.trace)
    ensures Answered(store, r.trace, |h|)
    ensures WalkShape(r.trace[|h|..], PrefixesFrom(cur, NonEmpty(segs)), r.value)
    decreases |segs|
  {
    if segs == [] then Io(h, None)
    else if segs[0] == [] then Walk(store, h, segs[1..], cur)
    else
      var next := Child(cur, segs[0]);
      WalkUnfold(cur, segs);
      var h1 := MakeCollection(store, h, next);
      var ps := PrefixesFrom(next, NonEmpty(segs[1..]));
      if Usable(h, h1) then
        var r := Walk(store, h1, segs[1..], next);
        WalkStep(store, h, h1, r.trace, next, ps, r.value);
        r
      else
        WalkStop(store, h, h1, next, ps);
        Io(h1, Some(next))
  }

  /** The prefixes of a walk whose next element is non-empty start with that
      element's child of `cur`. */
  lemma WalkUnfold(cur: string, segs: seq<string>)
    requires segs != [] && segs[0] != [] && '/' !in segs[0]
    requires cur == [] || (cur[0] != '/' && cur[|cur| - 1] != '/')
    ensures var next := Child(cur, segs[0]);
            && next != [] && next[0] != '/' && next[|next| - 1] != '/'
            && PrefixesFrom(cur, NonEmpty(segs)) == [next] + PrefixesFrom(next, NonEmpty(segs[1..]))
  {
    ChildTrimmed(cur, segs[0]);
    assert NonEmpty(segs) == [segs[0]] + NonEmpty(segs[1..]);
  }

  /** One prefix handled and the walk continued: the shape grows by that
      prefix's exchanges. */
  lemma WalkStep(store: Store, h: seq<Exchange>, h1: seq<Exchange>, t: seq<Exchange>,
                 p: string, ps: seq<string>, err: Option<string>)
    requires Extends(h, h1) && Answered(store, h1, |h|)
    requires |h1| == |h| + 1 || |h1| == |h| + 2
    requires h1[|h|].req == Mkcol(p)
    requires |h1| == |h| + 1 <==> h1[|h|].reply.Success?
    requires |h1| == |h| + 2 ==> h1[|h| + 1] == Exchange(Stat(p), Success(true))
    requires Extends(h1, t) && Answered(store, t, |h1|)
    requires WalkShape(t[|h1|..], ps, err)
    ensures Extends(h, t)
    ensures Answered(store, t, |h|)
    ensures WalkShape(t[|h|..], [p] + ps, err)
  {
    assert t[..|h|] == h1[..|h|];
    AnsweredStep(store, h1, t, |h|);
    var u := t[|h|..];
    assert u[0] == h1[|h|];
    assert ([p] + ps)[1..] == ps;
    if |h1| == |h| + 1 {
      assert u[1..] == t[|h1|..];
    } else {
      assert u[1] == h1[|h| + 1];
      assert u[2..] == t[|h1|..];
    }
  }

  /** One prefix whose Mkcol failed and whose Stat found no directory: the
      walk stops with that prefix as the error. */
  lemma WalkStop(store: Store, h: seq<Exchange>, h2: seq<Exchange>, p: string, ps: seq<string>)
    requires Extends(h, h2) && |h2| == |h| + 2
    requires h2[|h|].req == Mkcol(p) && !h2[|h|].reply.Success?
    requires h2[|h| + 1].req == Stat(p) && h2[|h| + 1].reply != Success(true)
    ensures WalkShape(h2[|h|..], [p] + ps, Some(p))
  {
    var u := h2[|h|..];
    assert u[0] == h2[|h|] && u[1] == h2[|h| + 1];
    assert u[2..] == [];
  }

  /** `Mkdir`: after trimming slashes, an empty path needs no remote call;
      otherwise every cumulative prefix of the non-empty elements is created
      in order, a failure being tolerated only when a follow-up Stat reports a
      directory, and the first intolerable failure ending the walk with that
      prefix as the error. */
  function Mkdir(store: Store, h: seq<Exchange>, relDir: string): (r: Io<Option<string>>)
    ensures TrimSlashes(relDir) == [] ==> r == Io(h, None)
    ensures Extends(h, r.trace)
    ensures Answered(store, r.trace, |h|)
    ensures WalkShape(r.trace[|h|..], Prefixes(Elements(relDir)), r.value)
  {
    var d := TrimSlashes(relDir);
    if d == [] then
      assert Split(d, '/') == [[]];
      assert h[|h|..] == [];
      Io(h, None)
    else
      Walk(store, h, Split(d, '/'), "")
  }

  /** `Exists`: one Stat of the slash-trimmed path; true iff it succeeded,
      any failure counting as absent. */
  function Exists(store: Store, h: seq<Exchange>, relPath: string): (r: Io<bool>)
    ensures |r.trace| == |h| + 1 && Extends(h, r.trace) && Answered(store, r.trace, |h|)
    ensures r.trace[|h|].req == Stat(TrimSlashes(relPath))
    ensures r.value <==> r.trace[|h|].reply.Success?
  {
    var t := Send(store, h, Stat(TrimSlashes(relPath)));
    Io(t, t[|h|].reply.Success?)
  }

  /** `Create`: one Put of the data at the slash-trimmed path; true iff it
      succeeded. */
  function Create(store: Store, h: seq<Exchange>, relPath: string, data: Bytes): (r: Io<bool>)
    ensures |r.trace| == |h| + 1 && Extends(h, r.trace) && Answered(store, r.trace, |h|)
    ensures r.trace[|h|].req == Put(TrimSlashes(relPath), data)
    ensures r.value <==> r.trace[|h|].reply.Success?
  {
    var t := Send(store, h, Put(TrimSlashes(relPath), data));
    Io(t, t[|h|].reply.Success?)
  }

  datatype Opts = Opts(baseUrl: string, auth: string, user: string, pass: string, token: string)

  datatype Credentials = BasicAuth(user: string, pass: string) | BearerAuth(token: string)

  datatype Client = Client(endpoint: string, credentials: Credentials)

  datatype NewError = EmptyBaseUrl | UnsupportedAuth | EndpointRejected

  /** The auth modes `New` accepts, after trimming and lower-casing. */
  predicate SupportedMode(mode: string) {
    mode == "" || mode == "basic" || mode == "bearer"
  }

  /** `New`: the base URL is whitespace-trimmed and must be non-empty; the
      auth mode selects basic credentials (`""`/`basic`) or a bearer token
      (`bearer`), anything else is refused; `endpointOk` stands for the
      underlying client's acceptance of the endpoint URL. */
  function New(o: Opts, endpointOk: string -> bool): (r: Result<Client, NewError>)
    ensures r == Err(EmptyBaseUrl) <==> TrimSpace(o.baseUrl) == []
    ensures r == Err(UnsupportedAuth) <==> TrimSpace(o.baseUrl) != [] && !SupportedMode(Canonical(o.auth))
    ensures r.Ok? <==> TrimSpace(o.baseUrl) != [] && SupportedMode(Canonical(o.auth)) && endpointOk(TrimSpace(o.baseUrl))
    ensures r.Ok? ==> r.value.endpoint == TrimSpace(o.baseUrl)
    ensures r.Ok? ==> (r.value.credentials.BearerAuth? <==> Canonical(o.auth) == "bearer")
    ensures r.Ok? && r.value.credentials.BasicAuth? ==> r.value.credentials == BasicAuth(o.user, o.pass)
    ensures r.Ok? && r.value.credentials.BearerAuth? ==> r.value.credentials == BearerAuth(o.token)
  {
    var endpoint := TrimSpace(o.baseUrl);
    if endpoint == [] then Err(EmptyBaseUrl)
    else
      var mode := Canonical(o.auth);
      var creds :=
        if mode == "" || mode == "basic" then Some(BasicAuth(o.user, o.pass))
        else if mode == "bearer" then Some(BearerAuth(o.token))
        else None;
      match creds
      case None => Err(UnsupportedAuth)
      case Some(c) => if endpointOk(endpoint) then Ok(Client(endpoint, c)) else Err(EndpointRejected)
  }
}
