/** The forum's post store: the tree rooted at the welcome post and the
    identifier allocator, with the insert of a reply, the lookup, the startup
    reply and the reply request's control flow. */
module Forum {
  import opened Posts

  /** The text of the root post. */
  const WelcomeText: string := "Welcome to the forum!"

  /** The post store: the root of the tree and the next identifier to issue. */
  class Store {
    var root: Post
    var nextID: int

    /** The store invariant: the root carries the reserved identifier 0, no two
        posts share an identifier, and every identifier lies below nextID. */
    ghost predicate Valid()
      reads this
    {
      root.id == 0 && 1 <= nextID && Unique(root) && IdsBelow(root, nextID)
    }

    /** The initial state: the welcome post with no replies; identifiers start at 1. */
    constructor ()
      ensures Valid()
      ensures root == Post(0, WelcomeText, []) && nextID == 1
    {
      root := Post(0, WelcomeText, []);
      nextID := 1;
    }

    /** The lookup the reply request makes from the root; it changes nothing. */
    method Find(id: int) returns (r: Option<Path>)
      ensures r == Search(id, root)
      ensures r.Some? ==> IsPath(root, r.value) && At(root, r.value).id == id
      ensures r.None? <==> !HasId(root, id)
    {
      r := FindPost(id, root);
    }

    /** Appends a fresh post, with identifier nextID, the given text and no
        replies, to the replies of the post at `parent`, then advances nextID. */
    method InsertReply(parent: Path, content: string)
      requires Valid() && IsPath(root, parent)
      modifies this
      ensures Valid()
      ensures nextID == old(nextID) + 1
      ensures root == AppendAt(old(root), parent, Post(old(nextID), content, []))
      ensures IsPath(root, parent)
      ensures At(root, parent) == old(At(root, parent)).(replies := old(At(root, parent).replies) + [Post(old(nextID), content, [])])
      ensures Extends(old(root), root)
      ensures forall x :: HasId(root, x) <==> HasId(old(root), x) || x == old(nextID)
      ensures Search(old(nextID), root) == Some(parent + [|old(At(root, parent).replies)|])
    {
      var post := Post(nextID, content, []);
      ghost var before := root;
      ghost var k := |At(root, parent).replies|;
      assert forall x :: HasId(post, x) <==> x == nextID;
      forall x
        ensures HasId(AppendAt(before, parent, post), x) <==> HasId(before, x) || x == nextID
      {
        AppendAtHasId(before, parent, post, x);
      }
      AppendAtUnique(before, parent, post);
      AppendAtExtends(before, parent, post);
      root := AppendAt(root, parent, post);
      AtChild(root, parent, k);
      SearchUnique(nextID, root, parent + [k]);
      nextID := nextID + 1;
    }

    /** The reply request for a parsed identifier: look the post up and insert
        the reply under it only when it was found. */
    method Reply(id: int, content: string) returns (found: bool)
      requires Valid()
      modifies this
      ensures Valid()
      ensures found <==> HasId(old(root), id)
      ensures !found ==> root == old(root) && nextID == old(nextID)
      ensures found ==> nextID == old(nextID) + 1
      ensures found ==> old(Search(id, root)).Some?
      ensures found ==> root == AppendAt(old(root), old(Search(id, root)).value, Post(old(nextID), content, []))
    {
      var p := Find(id);
      found := p.Some?;
      if found {
        InsertReply(p.value, content);
      }
    }
  }

  /** Process start: the store in its initial state, then the reply "first"
      inserted under the root. */
  method Start() returns (s: Store)
    ensures fresh(s) && s.Valid()
    ensures s.root == Post(0, WelcomeText, [Post(1, "first", [])]) && s.nextID == 2
  {
    s := new Store();
    s.InsertReply([], "first");
  }

  /** A session: the startup reply, a reply under the root, a nested reply
      under the startup reply, and two lookups, one of the nested reply and one
      of an identifier that was never issued. */
  method Session(second: string, nested: string) returns (s: Store, hit: Option<Path>, miss: Option<Path>)
    ensures fresh(s) && s.Valid() && s.nextID == 4
    ensures s.root == Post(0, WelcomeText, [Post(1, "first", [Post(3, nested, [])]), Post(2, second, [])])
    ensures hit == Some([0, 0]) && miss == None
  {
    s := Start();
    s.InsertReply([], second);
    ghost var t := s.root;
    s.InsertReply([0], nested);
    NestedReply(t, second, nested);
    assert [0] + [0] == [0, 0];
    hit := s.Find(3);
    miss := s.Find(99);
  }

  /** The tree after the nested reply of the session. */
  lemma NestedReply(t: Post, second: string, nested: string)
    requires t == Post(0, WelcomeText, [Post(1, "first", []), Post(2, second, [])])
    ensures IsPath(t, [0])
    ensures AppendAt(t, [0], Post(3, nested, []))
      == Post(0, WelcomeText, [Post(1, "first", [Post(3, nested, [])]), Post(2, second, [])])
  {
    var n := Post(3, nested, []);
    assert [0][1..] == [];
    assert AppendAt(t.replies[0], [], n) == Post(1, "first", [n]);
    assert t.replies[0 := Post(1, "first", [n])] == [Post(1, "first", [n]), Post(2, second, [])];
  }
}
