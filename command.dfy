/**
 * The `app:add-article` console command
 * (src/Command/AddTemplateArticleCommand.php), from the point where the
 * answers to its questions are known: check the author, build the article,
 * attach the comma-separated tags, validate, and only then persist and flush.
 */
module Command {
  import opened Wrappers
  import opened Strings
  import opened Entity
  import opened Collections
  import opened Store
  import opened ArticleValidation

  /** The answers to the console questions, in the order they are asked. */
  datatype Answers = Answers(
    title: string,
    slug: string,
    summary: string,
    content: string,
    authorId: UserId,
    tags: string)

  /** The command's exit status: `Command::SUCCESS` is 0 and `Command::FAILURE` is 1. */
  datatype ExitStatus = SUCCESS | FAILURE {
    function Code(): (r: int)
      ensures r == 0 <==> this == SUCCESS
      ensures r == 0 || r == 1
    {
      if SUCCESS? then 0 else 1
    }
  }

  /** The tag names taken from the answer: none when it is `empty()`, else every comma-separated piece, untrimmed. */
  function TagPieces(tags: string): seq<string> {
    if PhpEmpty(tags) then [] else Explode(tags)
  }

  /** The pieces hold no comma and, joined with commas, give back the answer. */
  lemma TagPiecesRoundTrip(tags: string)
    ensures forall p :: p in TagPieces(tags) ==> ',' !in p
    ensures !PhpEmpty(tags) ==> |TagPieces(tags)| >= 1 && Implode(TagPieces(tags)) == tags
  {
    if !PhpEmpty(tags) {
      ExplodeNoComma(tags);
      ImplodeExplode(tags);
    }
  }

  /** The "0" answer counts as empty for `empty()`, so it names no tag. */
  lemma ZeroNamesNoTag()
    ensures TagPieces("0") == [] && TagPieces("") == []
  {
  }

  /** The result of `trim` is discarded: the blank after a comma stays part of the name. */
  lemma PiecesAreNotTrimmed()
    ensures TagPieces("news, tech") == ["news", " tech"]
  {
    ExplodeImplode(["news", " tech"]);
    assert Implode(["news", " tech"]) == "news, tech";
  }

  /** The same name twice gives two pieces with that name. */
  lemma PiecesOfRepeatedName()
    ensures TagPieces("a,a") == ["a", "a"]
  {
    ExplodeImplode(["a", "a"]);
    assert Implode(["a", "a"]) == "a,a";
  }

  /**
   * `"a,a"` with no stored tag `"a"`: the lookup does not see the first new
   * tag, so two distinct tags named `"a"` are staged and both are attached.
   */
  lemma RepeatedNameStagesTwoTags(byName: map<string, Tag>, staged0: seq<Tag>,
                                  resolved: seq<Tag>, staged: seq<Tag>, tags: seq<Tag>)
    requires "a" !in byName
    requires Attached(byName, staged0, [], TagPieces("a,a"), resolved, staged, tags)
    ensures |staged| == |staged0| + 2 && staged[..|staged0|] == staged0
    ensures staged[|staged0|] != staged[|staged0| + 1]
    ensures staged[|staged0|].name == "a" && staged[|staged0| + 1].name == "a"
    ensures tags == [staged[|staged0|], staged[|staged0| + 1]]
  {
    PiecesOfRepeatedName();
    NewNameTwice(byName, "a", resolved);
    assert NoDup(resolved) && staged == staged0 + resolved;
    assert resolved[0] != resolved[1];
  }

  /** A name without a stored tag, asked twice: both resolved tags are new. */
  lemma NewNameTwice(byName: map<string, Tag>, name: string, resolved: seq<Tag>)
    requires name !in byName && |resolved| == 2
    ensures NewTags(byName, [name, name], resolved) == resolved
    ensures resolved[0] != resolved[1] ==> AddAll([], resolved) == resolved
  {
    var first := resolved[..1];
    assert first[..0] == [];
    NewNameOnce(byName, name, first);
    assert [name, name][..1] == [name];
    AttachTwo(resolved);
  }

  /** One name without a stored tag: its resolved tag is new. */
  lemma NewNameOnce(byName: map<string, Tag>, name: string, resolved: seq<Tag>)
    requires name !in byName && |resolved| == 1
    ensures NewTags(byName, [name], resolved) == resolved
  {
    assert [name][..0] == [] && resolved[..0] == [];
  }

  /** Two distinct tags added to an empty collection are both kept, in order. */
  lemma AttachTwo(ts: seq<Tag>)
    requires |ts| == 2
    ensures ts[0] != ts[1] ==> AddAll([], ts) == ts
  {
    var first := ts[..1];
    assert first[..0] == [];
    assert AddAll([], first) == [ts[0]];
  }

  /** The author exists and holds the editor role. */
  predicate AuthorAccepted(users: map<UserId, User>, authorId: UserId) {
    authorId in users && IsEditor(users[authorId])
  }

  /** The article the command builds for an accepted author, before any tag is attached. */
  method NewArticle(answers: Answers, author: User, now: int) returns (a: Article)
    ensures fresh(a) && a.reviews == [] && a.tags == []
    ensures a.Data() == ArticleData(Some(answers.title), Some(answers.slug), Some(answers.summary),
                                    Some(answers.content), now, Some(author), [])
  {
    a := new Article(now);
    a.SetTitle(Some(answers.title));
    a.SetSlug(answers.slug);
    a.SetSummary(Some(answers.summary));
    a.SetContent(Some(answers.content));
    a.SetAuthor(author);
    a.SetPublishedAt(now);
  }

  /** Validate the article against the stored slugs; only a valid article is persisted and flushed. */
  method ValidateAndCommit(em: EntityManager, a: Article) returns (status: ExitStatus)
    requires em.Valid()
    modifies em
    ensures em.Valid()
    ensures status == SUCCESS <==> IsValid(a.Data(), SlugsOf(old(em.articleRows)))
    ensures status == FAILURE ==> unchanged(em)
    ensures status == SUCCESS ==>
      && em.articleRows == old(em.articleRows) + old(em.StagedRows(em.stagedArticles)) + [a.Data()]
      && em.tagsByName == Register(old(em.tagsByName), old(em.stagedTags))
      && em.stagedTags == [] && em.stagedArticles == []
  {
    var errors := Violations(a.Data(), SlugsOf(em.articleRows));
    NoViolationsIffValid(a.Data(), SlugsOf(em.articleRows));
    if |errors| > 0 {
      return FAILURE;
    }
    ghost var rows := em.StagedRows(em.stagedArticles);
    em.PersistArticle(a);
    assert em.StagedRows(em.stagedArticles) == rows + [a.Data()];
    em.Flush();
    status := SUCCESS;
  }

  /** Build the article from the answers and attach the tags the answer names. */
  method TaggedArticle(em: EntityManager, author: User, answers: Answers, now: int)
    returns (article: Article, ghost resolved: seq<Tag>)
    requires em.Valid()
    modifies em`stagedTags
    ensures fresh(article) && article.reviews == []
    ensures article.Data().(tags := []) ==
      ArticleData(Some(answers.title), Some(answers.slug), Some(answers.summary),
                  Some(answers.content), now, Some(author), [])
    ensures Attached(em.tagsByName, old(em.stagedTags), [], TagPieces(answers.tags), resolved,
                     em.stagedTags, article.tags)
  {
    article := NewArticle(answers, author, now);
    if !PhpEmpty(answers.tags) {
      resolved := AttachTagsByName(em, article, Explode(answers.tags));
    } else {
      resolved := [];
      assert NewTags(em.tagsByName, [], []) == [];
    }
  }

  /** Everything after the author checks: build the article, attach its tags, validate and commit. */
  method AddArticle(em: EntityManager, author: User, answers: Answers, now: int)
    returns (status: ExitStatus, article: Article, ghost resolved: seq<Tag>, ghost staged: seq<Tag>)
    requires em.Valid()
    modifies em
    ensures em.Valid()
    ensures fresh(article) && article.reviews == []
    ensures article.Data().(tags := []) ==
      ArticleData(Some(answers.title), Some(answers.slug), Some(answers.summary),
                  Some(answers.content), now, Some(author), [])
    ensures Attached(old(em.tagsByName), old(em.stagedTags), [], TagPieces(answers.tags), resolved,
                     staged, article.tags)
    ensures status == SUCCESS <==> IsValid(article.Data(), SlugsOf(old(em.articleRows)))
    ensures status == FAILURE ==>
      && em.articleRows == old(em.articleRows) && em.stagedArticles == old(em.stagedArticles)
      && em.tagsByName == old(em.tagsByName) && em.stagedTags == staged
    ensures status == SUCCESS ==>
      && em.articleRows == old(em.articleRows) + old(em.StagedRows(em.stagedArticles)) + [article.Data()]
      && em.tagsByName == Register(old(em.tagsByName), staged)
      && em.stagedTags == [] && em.stagedArticles == []
  {
    ghost var rows0 := em.StagedRows(em.stagedArticles);
    article, resolved := TaggedArticle(em, author, answers, now);
    assert em.StagedRows(em.stagedArticles) == rows0;
    staged := em.stagedTags;
    status := ValidateAndCommit(em, article);
  }

  /**
   * `execute`, after the questions. `article` is the article it built (none
   * when the author check failed), `resolved` the tags it attached, and
   * `staged` the tags staged once they were attached.
   */
  method Execute(em: EntityManager, users: map<UserId, User>, answers: Answers, now: int)
    returns (status: ExitStatus, ghost article: Article?, ghost resolved: seq<Tag>, ghost staged: seq<Tag>)
    requires em.Valid()
    modifies em
    ensures em.Valid()
    ensures !AuthorAccepted(users, answers.authorId) ==> status == FAILURE && article == null && unchanged(em)
    ensures AuthorAccepted(users, answers.authorId) ==>
      && article != null && fresh(article) && article.reviews == []
      && article.Data().(tags := []) ==
         ArticleData(Some(answers.title), Some(answers.slug), Some(answers.summary),
                     Some(answers.content), now, Some(users[answers.authorId]), [])
      && Attached(old(em.tagsByName), old(em.stagedTags), [], TagPieces(answers.tags), resolved,
                  staged, article.tags)
    ensures status == SUCCESS <==>
      AuthorAccepted(users, answers.authorId) && IsValid(article.Data(), SlugsOf(old(em.articleRows)))
    ensures status.Code() == 0 <==>
      AuthorAccepted(users, answers.authorId) && IsValid(article.Data(), SlugsOf(old(em.articleRows)))
    ensures article != null && status == FAILURE ==>
      && em.articleRows == old(em.articleRows) && em.stagedArticles == old(em.stagedArticles)
      && em.tagsByName == old(em.tagsByName) && em.stagedTags == staged
    ensures status == SUCCESS ==>
      && em.articleRows == old(em.articleRows) + old(em.StagedRows(em.stagedArticles)) + [article.Data()]
      && em.tagsByName == Register(old(em.tagsByName), staged)
      && em.stagedTags == [] && em.stagedArticles == []
  {
    if answers.authorId !in users {
      return FAILURE, null, [], em.stagedTags;
    }
    var author := users[answers.authorId];
    if !IsEditor(author) {
      return FAILURE, null, [], em.stagedTags;
    }
    var a;
    status, a, resolved, staged := AddArticle(em, author, answers, now);
    article := a;
  }
}
