/** The recursive storage-tree walker, written twice in the source with the same shape:
    `listAll`/`walk` in app/api/studio/route.ts:14-35 and `listAllFiles`/`walk` in
    scripts/export_lingua.mjs:17-49.

    The object store is given as the answers it would give: listing a path yields an error,
    no data, or the children in the order the store lists them (ascending by name). A child
    whose `id` is null is a folder; its `contents` are what listing its full path answers.
    Giving the tree as a value is what the store promises (each listing enumerates disjoint
    children), and makes the walk terminate by structure. */
module StorageWalk {
  import opened Base

  /** What one `list(path)` call answers. */
  datatype Listing = Failed(message: string) | NoData | Listed(children: seq<Child>)

  /** One child of a listing: a folder (`id === null`) or a stored object. */
  datatype Child = Folder(name: string, contents: Listing) | Object(name: string, meta: Metadata)

  /** What the store reports about an object; `None` where it reports nothing. */
  datatype Metadata = Metadata(size: Option<int>, mimetype: Option<string>,
                               createdAt: Option<string>, updatedAt: Option<string>)

  /** One entry of the walk's output. */
  datatype Leaf = Leaf(path: string, name: string, size: Option<int>, mimetype: Option<string>,
                       createdAt: Option<string>, updatedAt: Option<string>)

  /** `path ? `${path}/${name}` : name`. */
  function JoinPath(path: string, name: string): (full: string)
    ensures path == "" ==> full == name
    ensures path != "" ==> full == path + "/" + name
  {
    if path == "" then name else path + "/" + name
  }

  function ToLeaf(full: string, name: string, m: Metadata): Leaf {
    Leaf(full, name, m.size, m.mimetype, m.createdAt, m.updatedAt)
  }

  /** Two walk results one after the other: the first error wins, otherwise the leaves are
      concatenated. */
  function Then(a: Result<seq<Leaf>>, b: Result<seq<Leaf>>): Result<seq<Leaf>> {
    if a.Err? then a else if b.Err? then b else Ok(a.value + b.value)
  }

  lemma ThenAssociates(a: Result<seq<Leaf>>, b: Result<seq<Leaf>>, c: Result<seq<Leaf>>)
    ensures Then(Then(a, b), c) == Then(a, Then(b, c))
  {
    if a.Ok? && b.Ok? && c.Ok? {
      assert (a.value + b.value) + c.value == a.value + (b.value + c.value);
    }
  }

  lemma ThenIdentity(a: Result<seq<Leaf>>)
    ensures Then(Ok([]), a) == a && Then(a, Ok([])) == a
  {
    if a.Ok? {
      assert [] + a.value == a.value && a.value + [] == a.value;
    }
  }

  /** The walk as a reference definition: the leaves under `path`, depth first, each
      directory in its listing order. */
  function Leaves(path: string, l: Listing): Result<seq<Leaf>>
    decreases l
  {
    match l
    case Failed(m) => Err(m)
    case NoData => Ok([])
    case Listed(cs) => ChildrenLeaves(path, cs)
  }

  function ChildrenLeaves(path: string, cs: seq<Child>): Result<seq<Leaf>>
    decreases cs
  {
    if cs == [] then Ok([])
    else Then(ChildLeaves(path, cs[0]), ChildrenLeaves(path, cs[1..]))
  }

  function ChildLeaves(path: string, c: Child): Result<seq<Leaf>>
    decreases c
  {
    match c
    case Folder(n, contents) => Leaves(JoinPath(path, n), contents)
    case Object(n, m) => Ok([ToLeaf(JoinPath(path, n), n, m)])
  }

  lemma {:induction false} ChildrenLeavesSnoc(path: string, cs: seq<Child>, c: Child)
    ensures ChildrenLeaves(path, cs + [c]) == Then(ChildrenLeaves(path, cs), ChildLeaves(path, c))
    decreases cs
  {
    if cs == [] {
      assert [] + [c] == [c];
      assert [c][1..] == [];
      ThenIdentity(ChildLeaves(path, c));
    } else {
      assert (cs + [c])[1..] == cs[1..] + [c];
      ChildrenLeavesSnoc(path, cs[1..], c);
      ThenAssociates(ChildLeaves(path, cs[0]), ChildrenLeaves(path, cs[1..]), ChildLeaves(path, c));
    }
  }

  /** `walk(path)` pushing into the shared `out` list, the list threaded through as `out`
      and returned; a thrown listing error comes back as `Err`. */
  method Walk(path: string, l: Listing, out: seq<Leaf>) returns (r: Result<seq<Leaf>>)
    ensures r == Then(Ok(out), Leaves(path, l))
    decreases l
  {
    match l {
      case Failed(m) =>
        return Err(m);
      case NoData =>
        assert out + [] == out;
        return Ok(out);
      case Listed(cs) =>
        var acc := out;
        var i := 0;
        assert cs[..0] == [] && out + [] == out;
        while i < |cs|
          invariant 0 <= i <= |cs|
          invariant Then(Ok(out), ChildrenLeaves(path, cs[..i])) == Ok(acc)
        {
          var c := cs[i];
          var full := JoinPath(path, c.name);
          WalkStep(path, cs, i, out);
          if c.Folder? {
            var sub := Walk(full, c.contents, acc);
            if sub.Err? {
              WalkAbort(path, cs, i, out);
              return sub;
            }
            acc := sub.value;
          } else {
            acc := acc + [ToLeaf(full, c.name, c.meta)];
          }
          i := i + 1;
        }
        assert cs[..i] == cs;
        return Ok(acc);
    }
  }

  /** One more child of the listing extends the walk's result by that child's leaves. */
  lemma WalkStep(path: string, cs: seq<Child>, i: nat, out: seq<Leaf>)
    requires i < |cs|
    ensures Then(Ok(out), ChildrenLeaves(path, cs[..i + 1]))
         == Then(Then(Ok(out), ChildrenLeaves(path, cs[..i])), ChildLeaves(path, cs[i]))
  {
    assert cs[..i + 1] == cs[..i] + [cs[i]];
    ChildrenLeavesSnoc(path, cs[..i], cs[i]);
    ThenAssociates(Ok(out), ChildrenLeaves(path, cs[..i]), ChildLeaves(path, cs[i]));
  }

  /** Once a prefix of the listing fails, the whole listing fails the same way. */
  lemma WalkAbort(path: string, cs: seq<Child>, i: nat, out: seq<Leaf>)
    requires i < |cs|
    requires Then(Ok(out), ChildrenLeaves(path, cs[..i + 1])).Err?
    ensures Then(Ok(out), ChildrenLeaves(path, cs)) == Then(Ok(out), ChildrenLeaves(path, cs[..i + 1]))
  {
    ChildrenLeavesSplit(path, cs, i + 1);
    ThenStopsAtError(Ok(out), ChildrenLeaves(path, cs[..i + 1]), ChildrenLeaves(path, cs[i + 1..]));
  }

  lemma ChildrenLeavesSplit(path: string, cs: seq<Child>, k: nat)
    requires k <= |cs|
    ensures ChildrenLeaves(path, cs) == Then(ChildrenLeaves(path, cs[..k]), ChildrenLeaves(path, cs[k..]))
  {
    var front, back := cs[..k], cs[k..];
    assert cs == front + back;
    ChildrenLeavesAppend(path, front, back);
  }

  lemma ThenStopsAtError(a: Result<seq<Leaf>>, b: Result<seq<Leaf>>, c: Result<seq<Leaf>>)
    requires Then(a, b).Err?
    ensures Then(a, Then(b, c)) == Then(a, b)
  {
  }

  lemma {:induction false} ChildrenLeavesAppend(path: string, a: seq<Child>, b: seq<Child>)
    ensures ChildrenLeaves(path, a + b) == Then(ChildrenLeaves(path, a), ChildrenLeaves(path, b))
    decreases a
  {
    if a == [] {
      assert a + b == b;
      ThenIdentity(ChildrenLeaves(path, b));
    } else {
      assert (a + b)[1..] == a[1..] + b;
      ChildrenLeavesAppend(path, a[1..], b);
      ThenAssociates(ChildLeaves(path, a[0]), ChildrenLeaves(path, a[1..]), ChildrenLeaves(path, b));
    }
  }

  // ---- Independent descriptions of what the walk finds ----

  /** Some listing the walk reaches fails. */
  predicate HasFailure(l: Listing)
    decreases l
  {
    match l
    case Failed(_) => true
    case NoData => false
    case Listed(cs) => exists i :: 0 <= i < |cs| && ChildHasFailure(cs[i])
  }

  predicate ChildHasFailure(c: Child)
    decreases c
  {
    c.Folder? && HasFailure(c.contents)
  }

  /** The number of stored objects beneath a listing. */
  function ObjectCount(l: Listing): nat
    decreases l
  {
    match l
    case Failed(_) => 0
    case NoData => 0
    case Listed(cs) => ChildrenObjectCount(cs)
  }

  function ChildrenObjectCount(cs: seq<Child>): nat
    decreases cs
  {
    if cs == [] then 0
    else (match cs[0] case Folder(_, contents) => ObjectCount(contents) case Object(_, _) => 1)
         + ChildrenObjectCount(cs[1..])
  }

  /** Any failing listing aborts the whole walk, and only a failing listing does. */
  lemma {:induction false} WalkFailsIffSomeListingFails(path: string, l: Listing)
    ensures Leaves(path, l).Err? <==> HasFailure(l)
    decreases l
  {
    match l
    case Failed(_) =>
    case NoData =>
    case Listed(cs) => ChildrenFailIffSomeFails(path, cs);
  }

  lemma {:induction false} ChildrenFailIffSomeFails(path: string, cs: seq<Child>)
    ensures ChildrenLeaves(path, cs).Err? <==> exists i :: 0 <= i < |cs| && ChildHasFailure(cs[i])
    decreases cs
  {
    if cs != [] {
      match cs[0] {
        case Folder(n, contents) => WalkFailsIffSomeListingFails(JoinPath(path, n), contents);
        case Object(_, _) =>
      }
      ChildrenFailIffSomeFails(path, cs[1..]);
      if exists i :: 0 <= i < |cs| && ChildHasFailure(cs[i]) {
        var i :| 0 <= i < |cs| && ChildHasFailure(cs[i]);
        if i > 0 {
          assert cs[1..][i - 1] == cs[i];
        }
      }
      if exists i :: 0 <= i < |cs[1..]| && ChildHasFailure(cs[1..][i]) {
        var i :| 0 <= i < |cs[1..]| && ChildHasFailure(cs[1..][i]);
        assert cs[i + 1] == cs[1..][i];
      }
    }
  }

  /** A walk that succeeds reports every stored object beneath the prefix exactly once
      (as many leaves as objects). */
  lemma {:induction false} WalkCountsEveryObject(path: string, l: Listing)
    requires Leaves(path, l).Ok?
    ensures |Leaves(path, l).value| == ObjectCount(l)
    decreases l
  {
    match l
    case Failed(_) =>
    case NoData =>
    case Listed(cs) => ChildrenCountEveryObject(path, cs);
  }

  lemma {:induction false} ChildrenCountEveryObject(path: string, cs: seq<Child>)
    requires ChildrenLeaves(path, cs).Ok?
    ensures |ChildrenLeaves(path, cs).value| == ChildrenObjectCount(cs)
    decreases cs
  {
    if cs != [] {
      match cs[0] {
        case Folder(n, contents) => WalkCountsEveryObject(JoinPath(path, n), contents);
        case Object(_, _) =>
      }
      ChildrenCountEveryObject(path, cs[1..]);
    }
  }

  /** `p` is `path` itself or lies beneath it. */
  predicate Beneath(path: string, p: string) {
    path == "" || (|path| < |p| && p[..|path| + 1] == path + "/")
  }

  lemma BeneathJoin(path: string, n: string, p: string)
    requires Beneath(JoinPath(path, n), p)
    ensures Beneath(path, p)
  {
    if path != "" {
      var full := path + "/" + n;
      assert full[..|path| + 1] == path + "/";
      assert p[..|path| + 1] == p[..|full| + 1][..|path| + 1];
    }
  }

  /** Every leaf lies beneath the walked prefix and its path ends in its own name. */
  lemma {:induction false} LeavesLieBeneathPrefix(path: string, l: Listing)
    requires Leaves(path, l).Ok?
    ensures forall leaf :: leaf in Leaves(path, l).value ==>
              Beneath(path, leaf.path) && (leaf.path == leaf.name || EndsWithName(leaf))
    decreases l
  {
    match l
    case Failed(_) =>
    case NoData =>
    case Listed(cs) => ChildrenLieBeneathPrefix(path, cs);
  }

  /** The path ends with `/` and the leaf's name. */
  predicate EndsWithName(leaf: Leaf) {
    |leaf.name| < |leaf.path| && leaf.path[|leaf.path| - |leaf.name| - 1..] == "/" + leaf.name
  }

  lemma {:induction false} ChildrenLieBeneathPrefix(path: string, cs: seq<Child>)
    requires ChildrenLeaves(path, cs).Ok?
    ensures forall leaf :: leaf in ChildrenLeaves(path, cs).value ==>
              Beneath(path, leaf.path) && (leaf.path == leaf.name || EndsWithName(leaf))
    decreases cs
  {
    if cs != [] {
      ChildrenLieBeneathPrefix(path, cs[1..]);
      match cs[0]
      case Folder(n, contents) =>
        LeavesLieBeneathPrefix(JoinPath(path, n), contents);
        forall leaf | leaf in Leaves(JoinPath(path, n), contents).value
          ensures Beneath(path, leaf.path)
        {
          BeneathJoin(path, n, leaf.path);
        }
      case Object(n, m) =>
        var full := JoinPath(path, n);
        if path != "" {
          assert full[..|path| + 1] == path + "/";
          assert full[|full| - |n| - 1..] == "/" + n;
        }
    }
  }
}
