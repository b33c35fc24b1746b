/**
 * The slice of Doctrine's entity manager the authoring paths use: a lookup of
 * tags by name over the flushed rows, `persist` staging a new object, and
 * `flush` writing what was staged. A tag staged but not yet flushed is not
 * found by the lookup.
 */
module Store {
  import opened Wrappers
  import opened Collections
  import opened Entity

  /** The tags `rows` become when each staged tag is written after them; a name already present keeps its row. */
  function Register(byName: map<string, Tag>, staged: seq<Tag>): map<string, Tag>
  {
    if staged == [] then byName
    else
      var m := Register(byName, staged[..|staged| - 1]);
      var t := staged[|staged| - 1];
      if t.name in m then m else m[t.name := t]
  }

  /** Every tag is filed under its own name. */
  ghost predicate NamesAgree(byName: map<string, Tag>) {
    forall n :: n in byName ==> byName[n].name == n
  }

  /** Writing staged tags keeps tags filed under their names, keeps earlier rows, and makes every staged name findable. */
  lemma {:induction false} RegisterProperties(byName: map<string, Tag>, staged: seq<Tag>)
    requires NamesAgree(byName)
    ensures NamesAgree(Register(byName, staged))
    ensures forall n :: n in byName ==> n in Register(byName, staged) && Register(byName, staged)[n] == byName[n]
    ensures forall t :: t in staged ==> t.name in Register(byName, staged)
  {
    if staged != [] {
      var init := staged[..|staged| - 1];
      RegisterProperties(byName, init);
      assert forall t :: t in staged ==> t in init || t == staged[|staged| - 1];
    }
  }

  class EntityManager {
    /** Flushed tags, by name: what `findOneBy(['name' => …])` can return. */
    var tagsByName: map<string, Tag>
    /** Tags passed to `persist` since the last flush. */
    var stagedTags: seq<Tag>
    /** Articles passed to `persist` since the last flush. */
    var stagedArticles: seq<Article>
    /** Flushed article rows. */
    var articleRows: seq<ArticleData>

    ghost predicate Valid()
      reads this
    {
      NamesAgree(tagsByName)
    }

    constructor (tagsByName: map<string, Tag>, articleRows: seq<ArticleData>)
      requires NamesAgree(tagsByName)
      ensures Valid()
      ensures this.tagsByName == tagsByName && this.articleRows == articleRows
      ensures stagedTags == [] && stagedArticles == []
    {
      this.tagsByName := tagsByName;
      this.articleRows := articleRows;
      stagedTags, stagedArticles := [], [];
    }

    /** `findOneBy(['name' => $name])` on the tag repository. */
    function FindTag(name: string): (r: Option<Tag>)
      reads this
      ensures r.Some? <==> name in tagsByName
      ensures Valid() && r.Some? ==> r.value.name == name
    {
      if name in tagsByName then Some(tagsByName[name]) else None
    }

    method PersistTag(tag: Tag)
      modifies this`stagedTags
      ensures stagedTags == old(stagedTags) + [tag]
    {
      stagedTags := stagedTags + [tag];
    }

    method PersistArticle(article: Article)
      modifies this`stagedArticles
      ensures stagedArticles == old(stagedArticles) + [article]
    {
      stagedArticles := stagedArticles + [article];
    }

    /**
     * Find the tag by name, or create one with that name and stage it.
     * A tag that is only staged is not found, so a name asked twice before
     * a flush yields two distinct new tags.
     */
    method GetOrCreateTag(name: string) returns (tag: Tag)
      requires Valid()
      modifies this`stagedTags
      ensures tag.name == name
      ensures name in tagsByName ==> tag == tagsByName[name] && stagedTags == old(stagedTags)
      ensures name !in tagsByName ==> fresh(tag) && stagedTags == old(stagedTags) + [tag]
    {
      var found := FindTag(name);
      if found.Some? {
        tag := found.value;
      } else {
        tag := new Tag(name);
        PersistTag(tag);
      }
    }

    /** The staged articles as they are now, in staging order. */
    function StagedRows(articles: seq<Article>): (r: seq<ArticleData>)
      reads articles
      ensures |r| == |articles|
      ensures forall i :: 0 <= i < |articles| ==> r[i] == articles[i].Data()
    {
      if articles == [] then []
      else StagedRows(articles[..|articles| - 1]) + [articles[|articles| - 1].Data()]
    }

    /** `flush()`: staged articles become rows, staged tags become findable by name, nothing stays staged. */
    method Flush()
      requires Valid()
      modifies this
      ensures Valid()
      ensures articleRows == old(articleRows) + old(StagedRows(stagedArticles))
      ensures tagsByName == Register(old(tagsByName), old(stagedTags))
      ensures stagedTags == [] && stagedArticles == []
    {
      WriteTags();
      WriteArticles();
    }

    method WriteTags()
      requires Valid()
      modifies this`tagsByName, this`stagedTags
      ensures Valid()
      ensures tagsByName == Register(old(tagsByName), old(stagedTags))
      ensures stagedTags == []
    {
      var tags := stagedTags;
      for i := 0 to |tags|
        invariant tagsByName == Register(old(tagsByName), tags[..i])
      {
        assert tags[..i + 1][..i] == tags[..i];
        if tags[i].name !in tagsByName {
          tagsByName := tagsByName[tags[i].name := tags[i]];
        }
      }
      assert tags[..|tags|] == tags;
      RegisterProperties(old(tagsByName), tags);
      stagedTags := [];
    }

    method WriteArticles()
      modifies this`articleRows, this`stagedArticles
      ensures articleRows == old(articleRows) + old(StagedRows(stagedArticles))
      ensures stagedArticles == []
    {
      var articles := stagedArticles;
      ghost var rows := StagedRows(articles);
      for i := 0 to |articles|
        invariant articleRows == old(articleRows) + rows[..i]
      {
        assert rows[..i + 1] == rows[..i] + [articles[i].Data()];
        articleRows := articleRows + [articles[i].Data()];
      }
      assert rows[..|articles|] == rows;
      stagedArticles := [];
    }
  }

  /** The tags newly created for `names`: those whose name had no flushed tag, in order. */
  function NewTags(byName: map<string, Tag>, names: seq<string>, resolved: seq<Tag>): (r: seq<Tag>)
    requires |names| == |resolved|
    ensures |r| <= |resolved|
    ensures forall t :: t in r ==> t in resolved
  {
    if names == [] then []
    else
      var k := |names| - 1;
      NewTags(byName, names[..k], resolved[..k]) + (if names[k] in byName then [] else [resolved[k]])
  }

  /** What get-or-create by name gave for each name: the flushed tag when there is one, else a new tag of that name. */
  ghost predicate ResolvedByName(byName: map<string, Tag>, names: seq<string>, resolved: seq<Tag>) {
    && |resolved| == |names|
    && (forall i :: 0 <= i < |names| ==> resolved[i].name == names[i])
    && (forall i :: 0 <= i < |names| && names[i] in byName ==> resolved[i] == byName[names[i]])
  }

  /** One more name resolved: the facts kept by the get-or-create loop carry over. */
  lemma ResolvedStep(byName: map<string, Tag>, names: seq<string>, i: nat, resolved: seq<Tag>, tag: Tag)
    requires i < |names| && tag.name == names[i]
    requires ResolvedByName(byName, names[..i], resolved)
    requires tag.name in byName ==> tag == byName[tag.name]
    requires NoDup(NewTags(byName, names[..i], resolved))
    requires tag.name !in byName ==> tag !in NewTags(byName, names[..i], resolved)
    ensures ResolvedByName(byName, names[..i + 1], resolved + [tag])
    ensures NewTags(byName, names[..i + 1], resolved + [tag]) ==
      NewTags(byName, names[..i], resolved) + (if tag.name in byName then [] else [tag])
    ensures NoDup(NewTags(byName, names[..i + 1], resolved + [tag]))
  {
    var names', resolved' := names[..i + 1], resolved + [tag];
    assert names'[..i] == names[..i] && resolved'[..i] == resolved;
    forall j | 0 <= j < i + 1 ensures resolved'[j].name == names'[j] {
      if j < i {
        assert resolved'[j] == resolved[j] && names'[j] == names[..i][j];
      }
    }
    forall j | 0 <= j < i + 1 && names'[j] in byName ensures resolved'[j] == byName[names'[j]] {
      if j < i {
        assert resolved'[j] == resolved[j] && names'[j] == names[..i][j];
      }
    }
    if tag.name !in byName {
      NoDupSnoc(NewTags(byName, names[..i], resolved), tag);
    }
  }

  /** A tag none of the given collections holds. */
  ghost predicate NotIn(t: Tag, byName: map<string, Tag>, staged: seq<Tag>, tags: seq<Tag>) {
    t !in byName.Values && t !in staged && t !in tags
  }

  /**
   * What the get-or-create loop keeps after handling `names`: each name got
   * its tag, only new tags were staged, in order, each distinct from every
   * tag held before, and the article gained the resolved tags.
   */
  ghost predicate Attached(byName: map<string, Tag>, staged0: seq<Tag>, tags0: seq<Tag>,
                           names: seq<string>, resolved: seq<Tag>, staged: seq<Tag>, tags: seq<Tag>)
  {
    && ResolvedByName(byName, names, resolved)
    && staged == staged0 + NewTags(byName, names, resolved)
    && (forall t :: t in NewTags(byName, names, resolved) ==> NotIn(t, byName, staged0, tags0))
    && NoDup(NewTags(byName, names, resolved))
    && tags == AddAll(tags0, resolved)
  }

  /** The get-or-create loop's facts carry over one more name. */
  lemma AttachedStep(byName: map<string, Tag>, staged0: seq<Tag>, tags0: seq<Tag>, names: seq<string>,
                     i: nat, resolved: seq<Tag>, staged: seq<Tag>, tags: seq<Tag>, tag: Tag)
    requires i < |names| && tag.name == names[i]
    requires Attached(byName, staged0, tags0, names[..i], resolved, staged, tags)
    requires tag.name in byName ==> tag == byName[tag.name]
    requires tag.name !in byName ==> NotIn(tag, byName, staged0, tags0) && tag !in NewTags(byName, names[..i], resolved)
    ensures Attached(byName, staged0, tags0, names[..i + 1], resolved + [tag],
                     staged + (if tag.name in byName then [] else [tag]), AddIfAbsent(tags, tag))
  {
    ResolvedStep(byName, names, i, resolved, tag);
    AddAllStep(tags0, resolved, tag);
  }

  /** One iteration: get or create the tag named `names[i]` and attach it with `addTag`. */
  method AttachByName(em: EntityManager, article: Article, names: seq<string>, i: nat,
                      ghost resolved: seq<Tag>, ghost staged0: seq<Tag>, ghost tags0: seq<Tag>)
    returns (tag: Tag)
    requires em.Valid() && i < |names|
    requires Attached(em.tagsByName, staged0, tags0, names[..i], resolved, em.stagedTags, article.tags)
    modifies em`stagedTags, article`tags
    ensures Attached(em.tagsByName, staged0, tags0, names[..i + 1], resolved + [tag], em.stagedTags, article.tags)
  {
    ghost var byName, staged, tags := em.tagsByName, em.stagedTags, article.tags;
    tag := em.GetOrCreateTag(names[i]);
    article.AddTag([tag]);
    AddAllStep(tags, [], tag);
    ghost var isNew := names[i] !in byName;
    assert isNew ==> tag !in NewTags(byName, names[..i], resolved) && NotIn(tag, byName, staged0, tags0);
    AttachedStep(byName, staged0, tags0, names, i, resolved, staged, tags, tag);
  }

  /**
   * The loop both authoring paths run: for each name, get or create the tag
   * and attach it with `addTag`.
   */
  method AttachTagsByName(em: EntityManager, article: Article, names: seq<string>)
    returns (ghost resolved: seq<Tag>)
    requires em.Valid()
    modifies em`stagedTags, article`tags
    ensures Attached(em.tagsByName, old(em.stagedTags), old(article.tags), names, resolved,
                     em.stagedTags, article.tags)
  {
    ghost var staged0, tags0 := em.stagedTags, article.tags;
    resolved := [];
    for i := 0 to |names|
      invariant Attached(em.tagsByName, staged0, tags0, names[..i], resolved, em.stagedTags, article.tags)
    {
      var tag := AttachByName(em, article, names, i, resolved, staged0, tags0);
      resolved := resolved + [tag];
    }
    assert names[..|names|] == names;
  }
}
