/**
 * The article voter (src/Security/ArticleVoter.php): whether it applies to an
 * (attribute, subject) pair, and its decision when it does.
 */
module Security {
  import opened Wrappers
  import opened Entity

  const DELETE: string := "delete"
  const EDIT: string := "edit"
  const SHOW: string := "show"

  /** What a security check is asked about: an article, or anything else. */
  datatype Subject = ArticleSubject(article: Article) | OtherSubject

  /** The token's user: `None` when it is absent or is not an application `User`. */
  type CurrentUser = Option<User>

  /** The access decision for one attribute, as the base voter reports it. */
  datatype Access = Granted | Abstain | Denied

  /** The voter applies to articles, and to the three attributes only, compared strictly. */
  predicate Supports(attribute: string, subject: Subject) {
    subject.ArticleSubject? && attribute in [SHOW, EDIT, DELETE]
  }

  /** Logged-in users may act on an article they wrote, and editors on any article. */
  predicate VoteOnAttribute(attribute: string, article: Article, user: CurrentUser)
    reads article
  {
    match user
    case None => false
    case Some(u) => article.author == Some(u) || IsEditor(u)
  }

  /** The base voter: abstain when not supported, otherwise grant or deny by the vote. */
  function Vote(attribute: string, subject: Subject, user: CurrentUser): (r: Access)
    reads if subject.ArticleSubject? then {subject.article} else {}
    ensures r == Abstain <==> !Supports(attribute, subject)
    ensures r == Granted ==> user.Some?
    ensures r == Granted <==>
      Supports(attribute, subject) && user.Some? &&
      (subject.article.author == user || IsEditor(user.value))
  {
    if !Supports(attribute, subject) then Abstain
    else if VoteOnAttribute(attribute, subject.article, user) then Granted
    else Denied
  }

  /** `supports` holds exactly for an article and one of "show", "edit", "delete". */
  lemma SupportsExactly(attribute: string, subject: Subject)
    ensures Supports(attribute, subject) <==>
      subject.ArticleSubject? && (attribute == "show" || attribute == "edit" || attribute == "delete")
  {
  }

  /** The comparison is strict: other spellings of a supported attribute are not supported. */
  lemma SupportsIsCaseSensitive(article: Article)
    ensures !Supports("SHOW", ArticleSubject(article))
    ensures !Supports("Edit", ArticleSubject(article))
    ensures !Supports("delete ", ArticleSubject(article))
  {
  }

  /** Without a logged-in application user every supported attribute is denied. */
  lemma AnonymousDenied(attribute: string, article: Article)
    ensures Vote(attribute, ArticleSubject(article), None) ==
      if attribute in [SHOW, EDIT, DELETE] then Denied else Abstain
  {
  }

  /** The article's author is granted every supported attribute. */
  lemma AuthorGranted(attribute: string, article: Article, u: User)
    requires attribute in [SHOW, EDIT, DELETE] && article.author == Some(u)
    ensures Vote(attribute, ArticleSubject(article), Some(u)) == Granted
  {
  }

  /** An editor is granted every supported attribute, even on an article written by someone else. */
  lemma EditorGranted(attribute: string, article: Article, u: User)
    requires attribute in [SHOW, EDIT, DELETE] && IsEditor(u)
    ensures Vote(attribute, ArticleSubject(article), Some(u)) == Granted
  {
  }

  /** A logged-in user who is neither the author nor an editor is denied every supported attribute. */
  lemma OthersDenied(attribute: string, article: Article, u: User)
    requires attribute in [SHOW, EDIT, DELETE] && article.author != Some(u) && !IsEditor(u)
    ensures Vote(attribute, ArticleSubject(article), Some(u)) == Denied
  {
  }

  /** SHOW, EDIT and DELETE are decided by the same rule. */
  lemma SameRuleForEveryAttribute(a1: string, a2: string, subject: Subject, user: CurrentUser)
    requires a1 in [SHOW, EDIT, DELETE] && a2 in [SHOW, EDIT, DELETE]
    ensures Vote(a1, subject, user) == Vote(a2, subject, user)
  {
  }
}
