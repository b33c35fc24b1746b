/**
 * `ArticleTransformer::transform` (src/Transformer/ArticleTransformer.php):
 * copy an incoming article record onto a new or an existing article, set
 * the author from the current user, and attach the named tags, reusing a
 * stored tag of the same name or staging a new one.
 */
module Transformer {
  import opened Wrappers
  import opened Collections
  import opened Entity
  import opened Store

  /** The fields of the incoming record that `transform` reads; `tagNames` are its tags' `name` entries. */
  datatype ArticleDto = ArticleDto(
    title: string,
    slug: string,
    summary: string,
    publishedAt: int,
    tagNames: seq<string>,
    content: string)

  /**
   * With no article a new one is made, created at `now`; otherwise the given
   * article is updated in place and returned. `currentUser` is `None` when the
   * security user is absent or is not an application user.
   */
  method Transform(dto: ArticleDto, article: Article?, currentUser: Option<User>,
                   em: EntityManager, now: int)
    returns (result: Article, ghost resolved: seq<Tag>)
    requires em.Valid()
    modifies article, em`stagedTags
    ensures article != null ==> result == article
    ensures article == null ==> fresh(result) && result.reviews == []
    ensures article != null ==> result.reviews == old(article.reviews)
    ensures result.title == Some(dto.title) && result.slug == Some(dto.slug)
    ensures result.summary == Some(dto.summary) && result.content == Some(dto.content)
    ensures result.publishedAt == dto.publishedAt
    ensures currentUser.Some? ==> result.author == currentUser
    ensures currentUser.None? && article != null ==> result.author == old(article.author)
    ensures currentUser.None? && article == null ==> result.author == None
    ensures Attached(em.tagsByName, old(em.stagedTags), if article == null then [] else old(article.tags),
                     dto.tagNames, resolved, em.stagedTags, result.tags)
  {
    if article == null {
      result := new Article(now);
    } else {
      result := article;
    }
    result.SetTitle(Some(dto.title));
    result.SetSlug(dto.slug);
    result.SetSummary(Some(dto.summary));
    result.SetPublishedAt(dto.publishedAt);
    result.SetContent(Some(dto.content));
    if currentUser.Some? {
      result.SetAuthor(currentUser.value);
    }
    resolved := AttachTagsByName(em, result, dto.tagNames);
  }

  /**
   * Tags are only ever added: every tag the article had is kept, each
   * requested name is present, and a duplicate-free tag list stays so.
   */
  lemma TransformOnlyAdds(byName: map<string, Tag>, staged0: seq<Tag>, tags0: seq<Tag>,
                          names: seq<string>, resolved: seq<Tag>, staged: seq<Tag>, tags: seq<Tag>)
    requires Attached(byName, staged0, tags0, names, resolved, staged, tags)
    ensures forall t :: t in tags0 ==> t in tags
    ensures forall n :: n in names ==> exists t :: t in tags && t.name == n
    ensures NoDup(tags0) ==> NoDup(tags)
    ensures |tags0| <= |tags| && tags[..|tags0|] == tags0
  {
    AddAllMembers(tags0, resolved);
    AddAllExtends(tags0, resolved);
    if NoDup(tags0) {
      AddAllNoDup(tags0, resolved);
    }
    forall n | n in names ensures exists t :: t in tags && t.name == n {
      var i :| 0 <= i < |names| && names[i] == n;
      assert resolved[i] in tags && resolved[i].name == n;
    }
  }

  /** A name with a stored tag reuses that tag and stages nothing for it. */
  lemma StoredNameReused(byName: map<string, Tag>, staged0: seq<Tag>, tags0: seq<Tag>,
                         name: string, resolved: seq<Tag>, staged: seq<Tag>, tags: seq<Tag>)
    requires Attached(byName, staged0, tags0, [name], resolved, staged, tags)
    requires name in byName
    ensures staged == staged0
    ensures tags == AddIfAbsent(tags0, byName[name])
  {
    assert [name][..0] == [] && resolved[..0] == [];
    assert NewTags(byName, [name], resolved) == NewTags(byName, [], []) + [];
    assert resolved[0] == byName[name];
    assert AddAll(tags0, resolved) == AddIfAbsent(AddAll(tags0, []), resolved[0]);
  }

  /** A name without a stored tag stages exactly one new tag of that name and attaches it. */
  lemma MissingNameStaged(byName: map<string, Tag>, staged0: seq<Tag>, tags0: seq<Tag>,
                          name: string, resolved: seq<Tag>, staged: seq<Tag>, tags: seq<Tag>)
    requires Attached(byName, staged0, tags0, [name], resolved, staged, tags)
    requires name !in byName
    ensures |staged| == |staged0| + 1 && staged[..|staged0|] == staged0
    ensures staged[|staged0|].name == name && staged[|staged0|] !in tags0
    ensures tags == tags0 + [staged[|staged0|]]
  {
    assert [name][..0] == [] && resolved[..0] == [];
    assert NewTags(byName, [name], resolved) == NewTags(byName, [], []) + [resolved[0]];
    assert NotIn(resolved[0], byName, staged0, tags0);
    assert AddAll(tags0, resolved) == AddIfAbsent(AddAll(tags0, []), resolved[0]);
  }
}
