/**
 * The Article entity (src/Entity/Article.php) and the entities it points to.
 * Tags and reviews are objects: the article's collections compare them by
 * identity. A user is a value: the identity map gives one object per user row,
 * so comparing users by value agrees with comparing them by identity.
 */
module Entity {
  import opened Wrappers
  import opened Collections

  const ROLE_EDITOR: string := "ROLE_EDITOR"

  type UserId = int

  datatype User = User(id: UserId, roles: seq<string>)

  /** `in_array(User::ROLE_EDITOR, $user->getRoles())` */
  predicate IsEditor(u: User) {
    ROLE_EDITOR in u.roles
  }

  /** A tag: only its name matters to the core. */
  class Tag {
    const name: string

    constructor (name: string)
      ensures this.name == name
    {
      this.name := name;
    }
  }

  /** A review: the core only sets the article it belongs to. */
  class Review {
    var article: Article?
  }

  /** The state of an article as the validator and the database see it. */
  datatype ArticleData = ArticleData(
    title: Option<string>,
    slug: Option<string>,
    summary: Option<string>,
    content: Option<string>,
    publishedAt: int,
    author: Option<User>,
    tags: seq<Tag>)

  class Article {
    var title: Option<string>
    var slug: Option<string>
    var summary: Option<string>
    var content: Option<string>
    var publishedAt: int
    var author: Option<User>
    var reviews: seq<Review>
    var tags: seq<Tag>

    /** Both collections are free of duplicates: the invariant every collection method keeps. */
    ghost predicate Valid()
      reads this
    {
      NoDup(tags) && NoDup(reviews)
    }

    /** The article's fields as one value. */
    function Data(): ArticleData
      reads this
    {
      ArticleData(title, slug, summary, content, publishedAt, author, tags)
    }

    /** `new Article()`: no fields set, empty collections, published at the creation time `now`. */
    constructor (now: int)
      ensures Valid()
      ensures title == None && slug == None && summary == None && content == None && author == None
      ensures publishedAt == now && reviews == [] && tags == []
    {
      title, slug, summary, content, author := None, None, None, None, None;
      publishedAt := now;
      reviews, tags := [], [];
    }

    method SetTitle(title: Option<string>)
      modifies this`title
      ensures this.title == title
    {
      this.title := title;
    }

    method SetSlug(slug: string)
      modifies this`slug
      ensures this.slug == Some(slug)
    {
      this.slug := Some(slug);
    }

    method SetSummary(summary: Option<string>)
      modifies this`summary
      ensures this.summary == summary
    {
      this.summary := summary;
    }

    method SetContent(content: Option<string>)
      modifies this`content
      ensures this.content == content
    {
      this.content := content;
    }

    method SetPublishedAt(publishedAt: int)
      modifies this`publishedAt
      ensures this.publishedAt == publishedAt
    {
      this.publishedAt := publishedAt;
    }

    method SetAuthor(author: User)
      modifies this`author
      ensures this.author == Some(author)
    {
      this.author := Some(author);
    }

    /** The review is attached to this article, then appended unless already present. */
    method AddReview(review: Review)
      modifies this`reviews, review`article
      ensures review.article == this
      ensures reviews == AddIfAbsent(old(reviews), review)
      ensures old(NoDup(reviews)) ==> NoDup(reviews)
      ensures old(Valid()) ==> Valid()
    {
      review.article := this;
      if review !in reviews {
        reviews := reviews + [review];
      }
    }

    method RemoveReview(review: Review)
      modifies this`reviews
      ensures reviews == RemoveElement(old(reviews), review)
      ensures old(NoDup(reviews)) ==> review !in reviews && NoDup(reviews)
      ensures old(Valid()) ==> Valid()
    {
      RemoveElementNoDupIf(reviews, review);
      reviews := RemoveElement(reviews, review);
    }

    /** `addTag(Tag ...$tags)`: each tag not yet present is appended, in order. */
    method AddTag(ts: seq<Tag>)
      modifies this`tags
      ensures tags == AddAll(old(tags), ts)
      ensures old(NoDup(tags)) ==> NoDup(tags)
      ensures old(Valid()) ==> Valid()
    {
      for i := 0 to |ts|
        invariant tags == AddAll(old(tags), ts[..i])
      {
        AddAllStep(old(tags), ts[..i], ts[i]);
        assert ts[..i + 1] == ts[..i] + [ts[i]];
        if ts[i] !in tags {
          tags := tags + [ts[i]];
        }
      }
      assert ts[..|ts|] == ts;
      if NoDup(old(tags)) {
        AddAllNoDup(old(tags), ts);
      }
    }

    method RemoveTag(tag: Tag)
      modifies this`tags
      ensures tags == RemoveElement(old(tags), tag)
      ensures old(NoDup(tags)) ==> tag !in tags && NoDup(tags)
      ensures old(Valid()) ==> Valid()
    {
      RemoveElementNoDupIf(tags, tag);
      tags := RemoveElement(tags, tag);
    }
  }

  lemma RemoveElementNoDupIf<T>(s: seq<T>, x: T)
    ensures NoDup(s) ==> x !in RemoveElement(s, x) && NoDup(RemoveElement(s, x))
  {
    if NoDup(s) {
      RemoveElementNoDup(s, x);
    }
  }
}
