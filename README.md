# Article backend of a Symfony blog, modelled in Dafny

The system is a Symfony application that manages blog articles. Each
article has a title, a slug, a summary, content, a publication date, an
author, reviews and tags. This project models its core:

- **Access control** (`Security`). The article voter covers the `show`,
  `edit` and `delete` permissions of an article. It grants them to the
  article's author and to any user holding the editor role. It denies
  anonymous visitors, and it abstains on every other attribute and
  subject.
- **Summary filter** (`Validator`). The custom constraint rejects a
  summary that holds a web link (`http://`, `https://`, `www.`, in any
  case) or a clickbait word. At most one violation is raised, with the
  constraint's message. Null and empty values are left to the other
  constraints.
- **The article entity** (`Entity`). Its fields can be set. Its reviews
  and tags behave like Doctrine's `ArrayCollection`: `add*` skips an
  object that is already there, by identity, and `remove*` removes the
  first occurrence. Review and Tag are classes, so identity is object
  identity. User is a value.
- **The entity's validation constraints** (`ArticleValidation`):
  - `NotBlank` on title, summary and content;
  - `Length` at most 255 on the summary;
  - the summary filter;
  - `Length` at least 10 on the content;
  - `Count` at most 4 on the tags;
  - `UniqueEntity` on the slug, reported on the title.
- **The entity manager** (`Store`), reduced to what the authoring paths
  use:
  - tags found by name among the flushed rows;
  - `persist` staging an object;
  - `flush` writing what is staged.
- **The transformer** (`Transformer`). It copies an incoming article
  record onto a new or an existing article, sets the author from the
  logged-in user, and attaches tags by name. A name with a stored tag
  reuses that tag; any other name gets a new tag, which is staged.
- **The `app:add-article` console command** (`Command`), from the point
  where the answers are known:
  - the author must exist and be an editor;
  - the comma-separated tag answer is split with `explode`, and the
    pieces are not trimmed, because the result of `trim` is discarded;
  - a tag answer that PHP's `empty()` treats as empty (`""` or `"0"`)
    attaches no tag;
  - the article is validated, and only a valid article is persisted and
    flushed;
  - the exit status is `SUCCESS` (0) or `FAILURE` (1).
- **The two listing queries** (`Repository`). `findLatest` keeps
  articles that have an author, are published by now and carry the tag
  when one is given. It orders them newest first and forwards the
  requested page. `findLatestNew` applies no date filter and no order,
  and always asks for page 1.

The current time is a parameter (`now`) wherever the source reads the
clock. Dates are whole numbers, so later means larger. The tag lookup
sees only flushed rows. Two equal names in one tag answer, as in `"a,a"`,
therefore stage two distinct new tags with that name.

Files: `wrappers.dfy` (Option), `collections.dfy` (ArrayCollection
semantics), `strings.dfy` (ASCII case folding, substring search,
`explode`/`implode`, `empty()`), `entity.dfy`, `voter.dfy`,
`validator.dfy`, `constraints.dfy`, `store.dfy`, `transformer.dfy`,
`command.dfy`, `repository.dfy`.

## Model

| member | source | states |
|---|---|---|
| Security.Vote | src/Security/ArticleVoter.php:31-53 | abstains exactly when the attribute is not one of show/edit/delete or the subject is not an article; grants exactly when a user is logged in who is the article's author or holds the editor role; a grant always implies a logged-in user |
| Security.SupportsExactly | src/Security/ArticleVoter.php:31-35 | the voter supports an attribute and subject exactly when the subject is an article and the attribute is `show`, `edit` or `delete` |
| Security.SupportsIsCaseSensitive | src/Security/ArticleVoter.php:34 | the attribute check is strict: `"SHOW"`, `"Edit"` and `"delete "` are not supported on an article |
| Security.AnonymousDenied | src/Security/ArticleVoter.php:42-47 | with no logged-in user, every supported attribute on an article is denied |
| Security.AuthorGranted | src/Security/ArticleVoter.php:52 | the article's author is granted every supported attribute |
| Security.EditorGranted | src/Security/ArticleVoter.php:52 | a user with the editor role is granted every supported attribute on every article |
| Security.OthersDenied | src/Security/ArticleVoter.php:52 | a logged-in user who is neither the author nor an editor is denied every supported attribute |
| Security.SameRuleForEveryAttribute | src/Security/ArticleVoter.php:40-53 | the verdict is the same for all three supported attributes: the rule does not look at which one is asked |
| Validator.Violations | src/Validator/NoLinksOrClickbaitValidator.php:14-37 | at most one violation; none for another constraint, or for a null or empty value; the constraint's message when the value has a link or a clickbait word (ASCII case-insensitive); none otherwise |
| Validator.Validate | src/Validator/NoLinksOrClickbaitValidator.php:14-37 | the context's violations after the call are those before it followed by exactly `Violations(value, constraint)`; the loop over the clickbait words stops at the first hit |
| Validator.ExecutionContext.AddViolation | src/Validator/NoLinksOrClickbaitValidator.php:26 | a built violation is appended to the context's list |
| Validator.LaptopIsClickbait | src/Validator/NoLinksOrClickbaitValidator.php:10-12 | matching is by substring, so `"laptop"` is flagged because it contains `"top"` |
| Validator.UpperCaseLinkIsFlagged | src/Validator/NoLinksOrClickbaitValidator.php:25-26 | the link pattern ignores case: the summary `"Visit WWW.EXAMPLE.COM"` yields exactly one violation with the constraint's message |
| Validator.VerdictIgnoresCase | src/Validator/NoLinksOrClickbaitValidator.php:25-36 | two values that differ only in the ASCII case of their letters are flagged alike and get the same violations |
| Validator.UpperCasedVerdict | src/Validator/NoLinksOrClickbaitValidator.php:25-36 | upper-casing a value never changes its violations |
| Validator.MarkerInAnyCaseIsFlagged | src/Validator/NoLinksOrClickbaitValidator.php:10-36 | any text holding a link marker or a clickbait word, its letters in any case, yields exactly one violation with the constraint's message |
| Validator.LinkInContextIsFlagged | src/Validator/NoLinksOrClickbaitValidator.php:25 | any text holding `http://` anywhere, whatever surrounds it, is flagged |
| Validator.ScenarioLinkSummary | src/Validator/NoLinksOrClickbaitValidator.php:25-28 | the summary `"Check out http://example.com now!"` yields exactly one violation with the constraint's message |
| Strings.FoldIgnoresUpper | src/Validator/NoLinksOrClickbaitValidator.php:25-32 | an upper-cased character folds to the same character as the original, so folding is blind to ASCII case |
| Strings.UpperCaseSameIgnoringCase | src/Validator/NoLinksOrClickbaitValidator.php:25-32 | a string and its upper-cased form differ only in case |
| Strings.MatchAtIgnoresCase | src/Validator/NoLinksOrClickbaitValidator.php:25-32 | a match at a position holds exactly when it holds with the haystack and the needle rewritten in any ASCII case |
| Strings.ContainsIgnoresCase | src/Validator/NoLinksOrClickbaitValidator.php:32 | `stripos` finds a needle exactly when it finds it with either string rewritten in any ASCII case |
| Strings.FoundInAnyCase | src/Validator/NoLinksOrClickbaitValidator.php:32 | a needle is found in any text that holds it with its letters in any case |
| Strings.ContainsInContext | src/Validator/NoLinksOrClickbaitValidator.php:32 | a case-insensitive match inside a string is still a match once text is added on either side |
| Strings.Explode | src/Command/AddTemplateArticleCommand.php:105 | `explode(',', s)` always gives at least one piece |
| Strings.ExplodeNoComma | src/Command/AddTemplateArticleCommand.php:105 | no piece contains the separator |
| Strings.ExplodeCount | src/Command/AddTemplateArticleCommand.php:105 | there is one more piece than the string has commas |
| Strings.ImplodeExplode | src/Command/AddTemplateArticleCommand.php:105 | joining the pieces with commas gives back the original string |
| Strings.ExplodeImplode | src/Command/AddTemplateArticleCommand.php:105 | splitting a comma-join of comma-free pieces gives back those pieces |
| Strings.ExplodeNoSeparator | src/Command/AddTemplateArticleCommand.php:105 | a string with no comma is its own single piece |
| Strings.ExplodeCommaJoin | src/Command/AddTemplateArticleCommand.php:105 | splitting `head + "," + tail`, with `head` comma-free, gives `head` followed by the pieces of `tail` |
| Collections.AddIfAbsent | src/Entity/Article.php:149-151 | the element is afterwards present; it is appended exactly when it was absent, and the collection is unchanged otherwise; nothing else is added or lost; a duplicate-free collection stays so |
| Collections.AddAllStep | src/Entity/Article.php:171-175 | adding a list of elements one more element at a time is adding that element to the result so far |
| Collections.AddAllMembers | src/Entity/Article.php:171-175 | after adding, the collection holds exactly the old elements and the added ones |
| Collections.AddAllExtends | src/Entity/Article.php:171-175 | adding only appends: the old collection is a prefix of the new one |
| Collections.AddAllNoDup | src/Entity/Article.php:171-175 | adding keeps a duplicate-free collection duplicate-free |
| Collections.AddAllPresent | src/Entity/Article.php:171-175 | adding elements that are all present already changes nothing |
| Collections.AddAllIdempotent | src/Entity/Article.php:169-176 | adding the same list twice is the same as adding it once |
| Collections.RemoveElement | src/Entity/Article.php:154-157 | an absent element leaves the collection unchanged; a present one shortens it by one |
| Collections.RemoveElementOthers | src/Entity/Article.php:154-157 | removal keeps every other element and adds none |
| Collections.RemoveElementNoDup | src/Entity/Article.php:154-157 | in a duplicate-free collection the removed element is gone afterwards and the rest stays duplicate-free |
| Collections.RemoveKeepsLaterCopy | src/Entity/Article.php:156 | only the first occurrence is removed: removing 7 from [7, 7] leaves [7] |
| Entity.Tag.constructor | src/Command/AddTemplateArticleCommand.php:111 | a new tag carries the given name |
| Entity.Article.constructor | src/Entity/Article.php:75-80 | a new article has no title, slug, summary, content or author; it is dated now; it has no reviews and no tags, so its invariant holds |
| Entity.Article.SetTitle | src/Entity/Article.php:92-95 | the title becomes the given value, null included; nothing else changes |
| Entity.Article.SetSlug | src/Entity/Article.php:102-105 | the slug becomes the given non-null string; nothing else changes |
| Entity.Article.SetContent | src/Entity/Article.php:112-115 | the content becomes the given value, null included; nothing else changes |
| Entity.Article.SetPublishedAt | src/Entity/Article.php:122-125 | the publication date becomes the given date; nothing else changes |
| Entity.Article.SetAuthor | src/Entity/Article.php:132-135 | the author becomes the given user; nothing else changes |
| Entity.Article.SetSummary | src/Entity/Article.php:164-167 | the summary becomes the given value, null included; nothing else changes |
| Entity.Article.AddReview | src/Entity/Article.php:145-152 | the review always points back to this article; it is appended to the reviews only when absent; distinct reviews stay distinct, and the article's invariant (no duplicate review or tag) is kept |
| Entity.Article.RemoveReview | src/Entity/Article.php:154-157 | the reviews lose the first occurrence of the review; in a duplicate-free list it is gone afterwards; the article's invariant is kept |
| Entity.Article.AddTag | src/Entity/Article.php:169-176 | the tags become the old tags with each given tag appended in order when it was absent; distinct tags stay distinct; the article's invariant is kept |
| Entity.Article.RemoveTag | src/Entity/Article.php:178-181 | the tags lose the first occurrence of the tag; in a duplicate-free list it is gone afterwards; the article's invariant is kept |
| ArticleValidation.SlugsOf | src/Entity/Article.php:17 | a slug is taken exactly when some stored article row has it |
| ArticleValidation.Violations | src/Entity/Article.php:17-73 | a constraint is reported exactly when the article breaks it (null and `""` are blank, `"0"` is not; Length skips null; the slug is unique among other rows; at most 4 tags), each at most once |
| ArticleValidation.Report | src/Command/AddTemplateArticleCommand.php:119-123 | what validation reports is a property path and a message for exactly each broken constraint, none twice, and nothing exactly when the article is valid |
| ArticleValidation.ReportsDistinct | src/Entity/Article.php:17-71 | no two constraints have the same message |
| ArticleValidation.NoViolationsIffValid | src/Entity/Article.php:17-73 | validation reports nothing exactly when every constraint holds |
| ArticleValidation.TagLimit | src/Entity/Article.php:71 | five tags are reported as too many and make the article invalid; four are not reported |
| Store.RegisterProperties | src/Command/AddTemplateArticleCommand.php:129 | flushing staged tags keeps every tag filed under its own name, keeps the tags stored before, and makes every staged name findable |
| Store.EntityManager.FindTag | src/Transformer/ArticleTransformer.php:41 | `findOneBy` by name finds a tag exactly when a flushed tag has that name, and the tag it finds has that name |
| Store.EntityManager.PersistTag | src/Command/AddTemplateArticleCommand.php:112 | the tag is appended to the staged tags |
| Store.EntityManager.PersistArticle | src/Command/AddTemplateArticleCommand.php:128 | the article is appended to the staged articles |
| Store.EntityManager.GetOrCreateTag | src/Command/AddTemplateArticleCommand.php:108-113 | the tag has the asked name; a stored tag of that name is reused and nothing is staged; otherwise a new tag is created and staged |
| Store.EntityManager.Flush | src/Command/AddTemplateArticleCommand.php:129 | the staged articles' current values are appended to the rows; the staged tags become findable by name, and an existing name keeps its tag; nothing stays staged |
| Store.AttachTagsByName | src/Transformer/ArticleTransformer.php:40-47 | each name gets the stored tag of that name or a new tag with that name; only the new tags are staged, in order, each distinct from all earlier tags and from each other; the article's tags become its old tags with each resolved tag added if absent |
| Transformer.Transform | src/Transformer/ArticleTransformer.php:23-50 | with no article a new one is made, otherwise the given one is updated in place and returned; title, slug, summary, content and date come from the record; the author becomes the current user when there is one and is left alone otherwise; reviews are kept; tags are attached by name as in `Store.AttachTagsByName` |
| Transformer.TransformOnlyAdds | src/Transformer/ArticleTransformer.php:40-47 | tags are only ever added: old tags stay first and in order, every requested name has a tag on the article, and a duplicate-free tag list stays so |
| Transformer.StoredNameReused | src/Transformer/ArticleTransformer.php:41-46 | a name with a stored tag attaches that tag and stages nothing |
| Transformer.MissingNameStaged | src/Transformer/ArticleTransformer.php:42-46 | a name without a stored tag stages exactly one new tag of that name, which the article did not hold, and appends it to the article's tags |
| Command.TagPiecesRoundTrip | src/Command/AddTemplateArticleCommand.php:104-105 | the tag names hold no comma, and for a non-empty answer they join back into the answer |
| Command.ZeroNamesNoTag | src/Command/AddTemplateArticleCommand.php:104 | the answers `""` and `"0"` name no tag, as `empty()` treats both as empty |
| Command.PiecesAreNotTrimmed | src/Command/AddTemplateArticleCommand.php:105-107 | the answer `"news, tech"` names `"news"` and `" tech"`: the blank after the comma stays |
| Command.RepeatedNameStagesTwoTags | src/Command/AddTemplateArticleCommand.php:104-115 | for the answer `"a,a"` with no stored tag `"a"`, two distinct new tags both named `"a"` are staged, and the article holds exactly those two |
| Command.NewArticle | src/Command/AddTemplateArticleCommand.php:96-102 | the new article carries the answers' title, slug, summary and content, the author and the current date, with no reviews and no tags |
| Command.ValidateAndCommit | src/Command/AddTemplateArticleCommand.php:119-133 | success exactly when the article is valid against the stored slugs; on failure the entity manager is untouched; on success the article is persisted and flushed after anything staged before |
| Command.TaggedArticle | src/Command/AddTemplateArticleCommand.php:96-116 | the new article carries the answers, the author and the date, and has the tags named by the answer attached by get-or-create, as `Store.AttachTagsByName` states; nothing but the staged tags changes in the entity manager |
| Command.AddArticle | src/Command/AddTemplateArticleCommand.php:96-133 | builds the article from the answers, attaches the tags named by the answer, and succeeds exactly when the result is valid; on failure no row is written and the new tags stay staged; on success the rows grow by the staged articles and this one, and the staged tags are written |
| Command.Execute | src/Command/AddTemplateArticleCommand.php:84-133 | an unknown author or one without the editor role fails with nothing changed; otherwise the article is built and tagged as in `Command.AddArticle`, and the command succeeds, with exit code 0, exactly when it is valid, writing it only then; every other outcome has exit code 1 |
| Repository.Insert | src/Repository/ArticleRepository.php:38 | inserting into a newest-first list keeps it newest first and adds exactly the one row |
| Repository.NewestFirstOrdered | src/Repository/ArticleRepository.php:38 | in a newest-first list every row is published no earlier than every row after it |
| Repository.SortNewestFirst | src/Repository/ArticleRepository.php:38 | `ORDER BY publishedAt DESC`: the result is newest first and holds the same rows |
| Repository.Filter | src/Repository/ArticleRepository.php:37-45 | a `WHERE` clause keeps each accepted row as often as it was stored and drops every other row |
| Repository.FindLatest | src/Repository/ArticleRepository.php:31-48 | the page is forwarded; the rows are exactly the stored rows with an author, published by now and tagged when a tag is given, each as often as stored, newest first |
| Repository.FindLatestNew | src/Repository/ArticleRepository.php:50-69 | the page asked is always 1; the rows are exactly the stored rows with an author, tagged when a tag is given, each as often as stored |
| Repository.LatestWithinLatestNew | src/Repository/ArticleRepository.php:31-69 | every row `findLatest` lists, `findLatestNew` lists as well, page aside |
| Repository.FutureArticleHidden | src/Repository/ArticleRepository.php:37 | an article dated after now is never listed by `findLatest` |
| Repository.NoTagNoRestriction | src/Repository/ArticleRepository.php:42-45 | without a tag, `findLatest` lists every stored row that has an author and is published by now |

## Left out

- The paginator is not part of this model. A query result is the rows
  in order plus the page number handed to it. The window it cuts, the
  page size and the page count are left out.
- The console's questions and messages (`ask`, `error`, `success`) are
  left out. Answers are plain strings and the author id is an integer.
  A null answer would make `setSlug` or `find` throw, and that path is
  left out.
- Clocks: `new \DateTimeImmutable()` becomes the parameter `now`, and
  dates are integers. The difference between `DateTimeInterface` and
  `DateTimeImmutable` in the incoming record is left out. A mutable date
  there would make `setPublishedAt` throw a type error.
- Regular expressions and Unicode: the link pattern is modelled as three
  literal substrings. Case folding is ASCII only, as `stripos` and a
  pattern without the `u` flag do.
- Doctrine's unit of work: its identity map, cascade, and the load order
  that `OrderBy` on reviews and tags imposes are left out. A loaded
  collection keeps its insertion order here.
- Store.EntityManager.Flush: a staged tag whose name already has a row
  keeps the existing row in the model. What the database does then
  depends on the tag table's constraints. Tag.php is not part of this
  model.
- User.php is not part of this model. A user is an id and
  its roles, the editor role is the string `"ROLE_EDITOR"`, and two users
  are the same when these values are equal.
- Review.php is not part of this model. A review is an object with a
  link to its article, and orphan removal is left out.
- ArticleValidation.Violations: gives which constraints are broken, each
  once. It does not give the order in which Symfony's validator reports
  them.
- Store.AttachTagsByName: a newly created tag is stated to be distinct
  from every tag held before (stored, staged or on the article), rather
  than to be a freshly allocated object.
- Symfony's base `Voter::vote` is left out: its loop over several
  attributes and its mapping to access constants. `Security.Vote` is the
  verdict for one attribute.
- The controllers, the login controller, logging, the serializer, the
  migrations and the DTO's own `id` and `author` fields are outside the
  modelled core. The constraint's `validatedBy` is left out too: the
  summary constraint is tied to its validator directly.
