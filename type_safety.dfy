/**
 * The post lifecycle of 2_idioms/2_1_type_safety/src/main.rs. The Rust
 * program encodes the state in the post's type, so a transition that does
 * not start from the right state does not compile; here each transition
 * requires its starting state, and `Apply` answers None for the
 * transitions the type system rejects.
 */
module TypeSafety {
  import opened Wrappers

  type U64 = x: int | 0 <= x < 0x1_0000_0000_0000_0000

  datatype State = New | Unmoderated(id: U64) | Published(id: U64) | Deleted

  datatype Post = Post(userId: U64, title: string, body: string, state: State) {

    /** The author, title and body, which no transition changes. */
    predicate SameContent(other: Post) {
      userId == other.userId && title == other.title && body == other.body
    }
  }

  /** Post::new: a post in the New state. */
  function NewPost(userId: U64, title: string, body: string): (p: Post)
    ensures p.state == New
    ensures p.userId == userId && p.title == title && p.body == body
  {
    Post(userId, title, body, New)
  }

  /** Post::publish: a new post goes to moderation under the id given. */
  function Publish(p: Post, newId: U64): (r: Post)
    requires p.state == New
    ensures r.state == Unmoderated(newId) && r.SameContent(p)
  {
    Post(p.userId, p.title, p.body, Unmoderated(newId))
  }

  /** Post::allow: an unmoderated post is published under the same id. */
  function Allow(p: Post): (r: Post)
    requires p.state.Unmoderated?
    ensures r.state == Published(p.state.id) && r.SameContent(p)
  {
    Post(p.userId, p.title, p.body, Published(p.state.id))
  }

  /** Post::deny: an unmoderated post is deleted. */
  function Deny(p: Post): (r: Post)
    requires p.state.Unmoderated?
    ensures r.state == Deleted && r.SameContent(p)
  {
    Post(p.userId, p.title, p.body, Deleted)
  }

  /** Post::delete: only a published post can be deleted. */
  function Delete(p: Post): (r: Post)
    requires p.state.Published?
    ensures r.state == Deleted && r.SameContent(p)
  {
    Post(p.userId, p.title, p.body, Deleted)
  }

  datatype Action = DoPublish(newId: U64) | DoAllow | DoDeny | DoDelete

  /**
   * The transition `a` from `p`, or None when no method of `p`'s type
   * performs it. A performed transition keeps the content and moves the
   * post strictly forward in its lifecycle.
   */
  function Apply(p: Post, a: Action): (r: Option<Post>)
    ensures r.Some? ==> r.value.SameContent(p) && Rank(r.value.state) > Rank(p.state)
  {
    match a
    case DoPublish(newId) => if p.state == New then Some(Publish(p, newId)) else None
    case DoAllow => if p.state.Unmoderated? then Some(Allow(p)) else None
    case DoDeny => if p.state.Unmoderated? then Some(Deny(p)) else None
    case DoDelete => if p.state.Published? then Some(Delete(p)) else None
  }

  /**
   * The actions applied one after the other, None as soon as one is
   * rejected. Every accepted action advances the post, so a run that
   * succeeds has at most as many actions as steps are left to Deleted.
   */
  function Run(p: Post, actions: seq<Action>): (r: Option<Post>)
    ensures r.Some? ==> Rank(p.state) + |actions| <= Rank(r.value.state) <= 3
    decreases |actions|
  {
    if actions == [] then Some(p)
    else
      match Apply(p, actions[0])
      case None => None
      case Some(q) => Run(q, actions[1..])
  }

  /** A deleted post has no transition, and a new post cannot be deleted. */
  lemma NoWayOut(p: Post, a: Action)
    ensures p.state == Deleted ==> Apply(p, a) == None
    ensures p.state == New ==> Apply(p, DoDelete) == None
    ensures p.state == New ==> (Apply(p, a).Some? <==> a.DoPublish?)
  {
  }

  /** Every transition keeps the author, title and body, and the post's state only moves forward. */
  lemma {:induction false} RunKeepsContent(p: Post, actions: seq<Action>)
    requires Run(p, actions).Some?
    ensures Run(p, actions).value.SameContent(p)
    ensures Rank(Run(p, actions).value.state) >= Rank(p.state)
    ensures Rank(Run(p, actions).value.state) == Rank(p.state) ==> actions == []
    decreases |actions|
  {
    if actions != [] {
      var q := Apply(p, actions[0]).value;
      RunKeepsContent(q, actions[1..]);
    }
  }

  /** How far along its lifecycle a post is. */
  function Rank(s: State): nat {
    match s
    case New => 0
    case Unmoderated(_) => 1
    case Published(_) => 2
    case Deleted => 3
  }

  /** A deleted post stays deleted: no non-empty run from it succeeds. */
  lemma DeletedIsFinal(p: Post, actions: seq<Action>)
    requires p.state == Deleted && actions != []
    ensures Run(p, actions) == None
  {
    NoWayOut(p, actions[0]);
  }

  /** Reaching Deleted from New takes publish then deny, or publish, allow and delete. */
  lemma {:induction false} PathsToDeleted(p: Post, actions: seq<Action>)
    requires p.state == New && Run(p, actions).Some? && Run(p, actions).value.state == Deleted
    ensures (|actions| == 2 && actions[0].DoPublish? && actions[1] == DoDeny)
         || (|actions| == 3 && actions[0].DoPublish? && actions[1] == DoAllow && actions[2] == DoDelete)
  {
    assert actions != [];
    var q := Apply(p, actions[0]).value;
    var rest := actions[1..];
    assert Run(p, actions) == Run(q, rest) && q.state.Unmoderated?;
    assert rest != [];
    var q2 := Apply(q, rest[0]).value;
    assert Run(q, rest) == Run(q2, rest[1..]);
    if rest[0] == DoAllow {
      assert q2.state.Published? && rest[1..] != [];
      var q3 := Apply(q2, rest[1..][0]).value;
      assert Run(q2, rest[1..]) == Run(q3, rest[1..][1..]);
    } else if rest[1..] != [] {
      DeletedIsFinal(q2, rest[1..]);
    }
  }

  /** main, with the bodies shortened: one post published, allowed and deleted; another published and denied, after which delete is refused. */
  lemma MainScenario()
    ensures Run(NewPost(10, "My new cool post", "body"), [DoPublish(1), DoAllow, DoDelete]).Some?
    ensures Run(NewPost(10, "My second cool post", "body"), [DoPublish(2), DoDeny]).value.state == Deleted
    ensures Run(NewPost(10, "My second cool post", "body"), [DoPublish(2), DoDeny, DoDelete]) == None
  {
    var p := NewPost(10, "My new cool post", "body");
    assert [DoPublish(1), DoAllow, DoDelete][1..] == [DoAllow, DoDelete];
    assert [DoAllow, DoDelete][1..] == [DoDelete];
    var p2 := NewPost(10, "My second cool post", "body");
    assert [DoPublish(2), DoDeny][1..] == [DoDeny];
    assert [DoPublish(2), DoDeny, DoDelete][1..] == [DoDeny, DoDelete];
    assert [DoDeny, DoDelete][1..] == [DoDelete];
  }
}
