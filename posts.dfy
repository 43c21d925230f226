/** The reply tree of the forum as a value: posts, references into the tree,
    the depth-first search for an identifier and the append of a reply. */
module Posts {

  datatype Option<T> = None | Some(value: T)

  /** A post: its identifier, its text and its replies in insertion order. */
  datatype Post = Post(id: int, content: string, replies: seq<Post>)

  /** A reference to a post of a tree: the reply indices followed from its root. */
  type Path = seq<nat>

  /** `p` leads from `t` to one of its posts. */
  predicate IsPath(t: Post, p: Path)
    decreases |p|
  {
    p == [] || (p[0] < |t.replies| && IsPath(t.replies[p[0]], p[1..]))
  }

  /** The post that `p` refers to. */
  function At(t: Post, p: Path): Post
    requires IsPath(t, p)
    decreases |p|
  {
    if p == [] then t else At(t.replies[p[0]], p[1..])
  }

  /** Some post of the tree `t` carries `id`. */
  predicate HasId(t: Post, id: int) {
    t.id == id || exists i :: 0 <= i < |t.replies| && HasId(t.replies[i], id)
  }

  /** No two posts of `t` carry the same identifier. */
  ghost predicate Unique(t: Post) {
    (forall i :: 0 <= i < |t.replies| ==> !HasId(t.replies[i], t.id) && Unique(t.replies[i])) &&
    (forall i, j, x :: 0 <= i < j < |t.replies| && HasId(t.replies[i], x) ==> !HasId(t.replies[j], x))
  }

  /** Every identifier in `t` lies in [0, bound). */
  ghost predicate IdsBelow(t: Post, bound: int) {
    forall x :: HasId(t, x) ==> 0 <= x < bound
  }

  /** `p` comes strictly before `q` in depth-first preorder: a node before its
      replies, and earlier replies (with all their replies) before later ones. */
  predicate Before(p: Path, q: Path)
    decreases |p|
  {
    q != [] && (p == [] || p[0] < q[0] || (p[0] == q[0] && Before(p[1..], q[1..])))
  }

  /** `b` is `a` after some appends: same identifier and text, and every reply
      list keeps its old entries (themselves extended) in their old positions. */
  predicate Extends(a: Post, b: Post) {
    a.id == b.id && a.content == b.content && |a.replies| <= |b.replies| &&
    forall i :: 0 <= i < |a.replies| ==> Extends(a.replies[i], b.replies[i])
  }

  // ---------------------------------------------------------------------------
  // Search: the specification of findPost

  /** The post of `t` that findPost returns: `t` itself when it carries `id`,
      otherwise the first hit among its replies, searched in order. */
  function Search(id: int, t: Post): (r: Option<Path>)
    decreases t, |t.replies| + 1
    ensures r.Some? ==> IsPath(t, r.value) && At(t, r.value).id == id
    ensures r.None? <==> !HasId(t, id)
  {
    if t.id == id then Some([]) else SearchFrom(id, t, 0)
  }

  /** The search over the replies of `t` from index `i` on. */
  function SearchFrom(id: int, t: Post, i: nat): (r: Option<Path>)
    requires i <= |t.replies|
    decreases t, |t.replies| - i
    ensures r.Some? ==> |r.value| > 0 && i <= r.value[0] < |t.replies|
    ensures r.Some? ==> Search(id, t.replies[r.value[0]]) == Some(r.value[1..])
    ensures r.Some? ==> IsPath(t, r.value) && At(t, r.value).id == id
    ensures r.Some? ==> forall j :: i <= j < r.value[0] ==> !HasId(t.replies[j], id)
    ensures r.None? <==> forall j :: i <= j < |t.replies| ==> !HasId(t.replies[j], id)
  {
    if i == |t.replies| then None
    else match Search(id, t.replies[i])
      case Some(p) =>
        assert ([i] + p)[1..] == p;
        Some([i] + p)
      case None => SearchFrom(id, t, i + 1)
  }

  /** findPost: depth-first search, the node first, then each reply in order,
      returning the first hit. */
  method FindPost(id: int, t: Post) returns (r: Option<Path>)
    decreases t
    ensures r == Search(id, t)
  {
    if t.id == id {
      return Some([]);
    }
    var i := 0;
    while i < |t.replies|
      invariant 0 <= i <= |t.replies|
      invariant SearchFrom(id, t, i) == Search(id, t)
    {
      var p := FindPost(id, t.replies[i]);
      if p.Some? {
        return Some([i] + p.value);
      }
      i := i + 1;
    }
    return None;
  }

  // ---------------------------------------------------------------------------
  // Properties of the search

  /** The post a path refers to is found among the identifiers of the tree. */
  lemma {:induction false} AtHasId(t: Post, p: Path)
    requires IsPath(t, p)
    ensures HasId(t, At(t, p).id)
  {
    if p != [] {
      AtHasId(t.replies[p[0]], p[1..]);
    }
  }

  /** The search returns the first post carrying `id` in depth-first preorder:
      no post carrying `id` lies before the one it returns. */
  lemma {:induction false} SearchFindsFirst(id: int, t: Post, q: Path)
    requires IsPath(t, q) && At(t, q).id == id
    ensures Search(id, t).Some? && !Before(q, Search(id, t).value)
  {
    AtHasId(t, q);
    var p := Search(id, t).value;
    if q != [] && t.id != id {
      var c := t.replies[q[0]];
      AtHasId(c, q[1..]);
      if q[0] == p[0] {
        SearchFindsFirst(id, c, q[1..]);
      }
    }
  }

  /** When identifiers are unique, the search returns the one post carrying `id`. */
  lemma {:induction false} SearchUnique(id: int, t: Post, q: Path)
    requires Unique(t) && IsPath(t, q) && At(t, q).id == id
    ensures Search(id, t) == Some(q)
  {
    if q != [] {
      var k := q[0];
      var c := t.replies[k];
      AtHasId(c, q[1..]);
      assert t.id != id;
      SearchUnique(id, c, q[1..]);
      SearchFromSkip(id, t, 0, k);
      assert [k] + q[1..] == q;
    }
  }

  /** The search over replies skips replies that do not carry `id`. */
  lemma {:induction false} SearchFromSkip(id: int, t: Post, i: nat, k: nat)
    requires i <= k < |t.replies|
    requires forall j :: i <= j < k ==> !HasId(t.replies[j], id)
    requires HasId(t.replies[k], id)
    decreases k - i
    ensures SearchFrom(id, t, i) == Some([k] + Search(id, t.replies[k]).value)
  {
    if i < k {
      SearchFromSkip(id, t, i + 1, k);
    }
  }

  // ---------------------------------------------------------------------------
  // AppendAt: the effect of insertReply on the tree

  /** The tree `t` with `n` appended to the replies of the post at `p`. */
  function AppendAt(t: Post, p: Path, n: Post): (r: Post)
    requires IsPath(t, p)
    decreases |p|
    ensures IsPath(r, p) && At(r, p) == At(t, p).(replies := At(t, p).replies + [n])
  {
    if p == [] then t.(replies := t.replies + [n])
    else t.(replies := t.replies[p[0] := AppendAt(t.replies[p[0]], p[1..], n)])
  }

  /** After the append, the tree carries its old identifiers and those of `n`, and no others. */
  lemma {:induction false} AppendAtHasId(t: Post, p: Path, n: Post, x: int)
    requires IsPath(t, p)
    ensures HasId(AppendAt(t, p, n), x) <==> HasId(t, x) || HasId(n, x)
  {
    var r := AppendAt(t, p, n);
    if p == [] {
      if HasId(n, x) {
        assert HasId(r.replies[|t.replies|], x);
      }
      if HasId(t, x) && t.id != x {
        var i :| 0 <= i < |t.replies| && HasId(t.replies[i], x);
        assert r.replies[i] == t.replies[i];
      }
      if HasId(r, x) && r.id != x {
        var i :| 0 <= i < |r.replies| && HasId(r.replies[i], x);
        if i < |t.replies| {
          assert r.replies[i] == t.replies[i];
        }
      }
    } else {
      var k := p[0];
      var c := t.replies[k];
      AppendAtHasId(c, p[1..], n, x);
      if HasId(c, x) || HasId(n, x) {
        assert HasId(r.replies[k], x);
      }
      if HasId(t, x) && t.id != x {
        var i :| 0 <= i < |t.replies| && HasId(t.replies[i], x);
        if i != k {
          assert r.replies[i] == t.replies[i];
        }
      }
      if HasId(r, x) && r.id != x {
        var i :| 0 <= i < |r.replies| && HasId(r.replies[i], x);
        if i != k {
          assert r.replies[i] == t.replies[i];
        }
      }
    }
  }

  /** Appending a post whose identifiers are new keeps identifiers unique. */
  lemma {:induction false} AppendAtUnique(t: Post, p: Path, n: Post)
    requires IsPath(t, p) && Unique(t) && Unique(n)
    requires forall x :: HasId(n, x) ==> !HasId(t, x)
    ensures Unique(AppendAt(t, p, n))
  {
    var r := AppendAt(t, p, n);
    forall i, x | 0 <= i < |t.replies| && HasId(t.replies[i], x)
      ensures HasId(t, x)
    {
    }
    if p == [] {
      assert r.replies == t.replies + [n];
      assert HasId(t, t.id);
    } else {
      var k := p[0];
      var c := t.replies[k];
      AppendAtUnique(c, p[1..], n);
      forall x
        ensures HasId(r.replies[k], x) <==> HasId(c, x) || HasId(n, x)
      {
        AppendAtHasId(c, p[1..], n, x);
      }
      assert HasId(t, t.id);
      forall i | 0 <= i < |r.replies| && i != k
        ensures r.replies[i] == t.replies[i]
      {
      }
    }
  }

  /** The append changes the length of no reply list other than that at `p`. */
  lemma {:induction false} AppendAtOthers(t: Post, p: Path, n: Post, q: Path)
    requires IsPath(t, p) && IsPath(t, q) && q != p
    ensures IsPath(AppendAt(t, p, n), q)
    ensures |At(AppendAt(t, p, n), q).replies| == |At(t, q).replies|
  {
    var r := AppendAt(t, p, n);
    if q != [] {
      var k := q[0];
      if p == [] {
        assert r.replies[k] == t.replies[k];
      } else if p[0] == k {
        assert p[1..] != q[1..] by {
          assert p == [k] + p[1..] && q == [k] + q[1..];
        }
        AppendAtOthers(t.replies[k], p[1..], n, q[1..]);
      } else {
        assert r.replies[k] == t.replies[k];
      }
    } else {
      assert p != [];
    }
  }

  // ---------------------------------------------------------------------------
  // Append-only growth

  /** Every tree extends itself. */
  lemma {:induction false} ExtendsRefl(a: Post)
    ensures Extends(a, a)
  {
    forall i | 0 <= i < |a.replies|
      ensures Extends(a.replies[i], a.replies[i])
    {
      ExtendsRefl(a.replies[i]);
    }
  }

  /** Growth by appends composes. */
  lemma {:induction false} ExtendsTrans(a: Post, b: Post, c: Post)
    requires Extends(a, b) && Extends(b, c)
    ensures Extends(a, c)
  {
    forall i | 0 <= i < |a.replies|
      ensures Extends(a.replies[i], c.replies[i])
    {
      ExtendsTrans(a.replies[i], b.replies[i], c.replies[i]);
    }
  }

  /** A reference into a tree stays valid in every extension of it, and refers
      to a post with the same identifier and text. */
  lemma {:induction false} ExtendsAt(a: Post, b: Post, q: Path)
    requires Extends(a, b) && IsPath(a, q)
    ensures IsPath(b, q) && Extends(At(a, q), At(b, q))
  {
    if q != [] {
      ExtendsAt(a.replies[q[0]], b.replies[q[0]], q[1..]);
    }
  }

  /** An identifier present in a tree is present in every extension of it. */
  lemma {:induction false} ExtendsHasId(a: Post, b: Post, x: int)
    requires Extends(a, b) && HasId(a, x)
    ensures HasId(b, x)
  {
    if a.id != x {
      var i :| 0 <= i < |a.replies| && HasId(a.replies[i], x);
      ExtendsHasId(a.replies[i], b.replies[i], x);
    }
  }

  /** Appending a reply only extends the tree. */
  lemma {:induction false} AppendAtExtends(t: Post, p: Path, n: Post)
    requires IsPath(t, p)
    ensures Extends(t, AppendAt(t, p, n))
  {
    var r := AppendAt(t, p, n);
    forall i | 0 <= i < |t.replies|
      ensures Extends(t.replies[i], r.replies[i])
    {
      if p != [] && i == p[0] {
        AppendAtExtends(t.replies[i], p[1..], n);
      } else {
        ExtendsRefl(t.replies[i]);
      }
    }
  }

  /** The path to a reply of the post at `p`. */
  lemma {:induction false} AtChild(t: Post, p: Path, k: nat)
    requires IsPath(t, p) && k < |At(t, p).replies|
    ensures IsPath(t, p + [k]) && At(t, p + [k]) == At(t, p).replies[k]
  {
    if p == [] {
      assert p + [k] == [k];
      assert [k][1..] == [];
    } else {
      AtChild(t.replies[p[0]], p[1..], k);
      assert (p + [k])[1..] == p[1..] + [k];
    }
  }
}
