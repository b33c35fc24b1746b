/**
 * The validation constraints declared on the Article entity
 * (src/Entity/Article.php): NotBlank, Length, Count, the summary filter and
 * slug uniqueness, composed into the list of violations one validation of
 * an article produces.
 */
module ArticleValidation {
  import opened Wrappers
  import opened Collections
  import opened Entity
  import Validator

  const BLANK_TITLE: string := "This value should not be blank."
  const BLANK_SUMMARY: string := "article.blank_summary"
  const TOO_LONG_SUMMARY: string := "This value is too long. It should have 255 characters or less."
  const BLANK_CONTENT: string := "article.blank_content"
  const TOO_SHORT_CONTENT: string := "article.too_short_content"
  const TOO_MANY_TAGS: string := "article.too_many_tags"
  const SLUG_NOT_UNIQUE: string := "article.slug_unique"

  const SUMMARY_MAX_LENGTH: nat := 255
  const CONTENT_MIN_LENGTH: nat := 10
  const MAX_TAGS: nat := 4

  /** The constraint a violation comes from. */
  datatype Rule =
    | SlugUnique
    | TitleNotBlank
    | SummaryNotBlank
    | SummaryMaxLength
    | SummaryNoLinksOrClickbait
    | ContentNotBlank
    | ContentMinLength
    | TagsMaxCount

  /** The property path a violation is reported on (UniqueEntity's errorPath is the title). */
  function Path(rule: Rule): string {
    match rule
    case SlugUnique | TitleNotBlank => "title"
    case SummaryNotBlank | SummaryMaxLength | SummaryNoLinksOrClickbait => "summary"
    case ContentNotBlank | ContentMinLength => "content"
    case TagsMaxCount => "tags"
  }

  function Message(rule: Rule): string {
    match rule
    case SlugUnique => SLUG_NOT_UNIQUE
    case TitleNotBlank => BLANK_TITLE
    case SummaryNotBlank => BLANK_SUMMARY
    case SummaryMaxLength => TOO_LONG_SUMMARY
    case SummaryNoLinksOrClickbait => Validator.MESSAGE
    case ContentNotBlank => BLANK_CONTENT
    case ContentMinLength => TOO_SHORT_CONTENT
    case TagsMaxCount => TOO_MANY_TAGS
  }

  /** `NotBlank`: null and "" are blank; every other string, "0" and " " included, is not. */
  predicate NotBlank(v: Option<string>) {
    v.Some? && v.value != ""
  }

  /** The slugs used by other articles, as the uniqueness query would find them. */
  function SlugsOf(rows: seq<ArticleData>): (r: set<string>)
    ensures forall s :: s in r <==> exists i :: 0 <= i < |rows| && rows[i].slug == Some(s)
  {
    set i | 0 <= i < |rows| && rows[i].slug.Some? :: rows[i].slug.value
  }

  /** An article passes validation. */
  predicate IsValid(a: ArticleData, takenSlugs: set<string>) {
    && NotBlank(a.title)
    && NotBlank(a.summary) && |a.summary.value| <= SUMMARY_MAX_LENGTH
    && !Validator.IsFlagged(a.summary.value)
    && NotBlank(a.content) && |a.content.value| >= CONTENT_MIN_LENGTH
    && |a.tags| <= MAX_TAGS
    && (a.slug.Some? ==> a.slug.value !in takenSlugs)
  }

  /** The constraints in the order the entity declares them. */
  const RULES: seq<Rule> := [SlugUnique, TitleNotBlank, SummaryNotBlank, SummaryMaxLength,
    SummaryNoLinksOrClickbait, ContentNotBlank, ContentMinLength, TagsMaxCount]

  /** The article breaks the constraint. Length skips a null value; NotBlank reports it. */
  predicate Fails(a: ArticleData, takenSlugs: set<string>, rule: Rule) {
    match rule
    case SlugUnique => a.slug.Some? && a.slug.value in takenSlugs
    case TitleNotBlank => !NotBlank(a.title)
    case SummaryNotBlank => !NotBlank(a.summary)
    case SummaryMaxLength => a.summary.Some? && |a.summary.value| > SUMMARY_MAX_LENGTH
    case SummaryNoLinksOrClickbait =>
      Validator.Violations(a.summary, Validator.NoLinksOrClickbait(Validator.MESSAGE)) != []
    case ContentNotBlank => !NotBlank(a.content)
    case ContentMinLength => a.content.Some? && |a.content.value| < CONTENT_MIN_LENGTH
    case TagsMaxCount => |a.tags| > MAX_TAGS
  }

  /** The broken constraints among `rules`, in their order. */
  function Collect(a: ArticleData, takenSlugs: set<string>, rules: seq<Rule>): (r: seq<Rule>)
    ensures forall x :: x in r ==> x in rules && Fails(a, takenSlugs, x)
    ensures forall x :: x in rules && Fails(a, takenSlugs, x) ==> x in r
    ensures |r| <= |rules|
    ensures NoDup(rules) ==> NoDup(r)
  {
    if rules == [] then []
    else
      var rest := Collect(a, takenSlugs, rules[1..]);
      assert NoDup(rules) ==> NoDup(rules[1..]) && rules[0] !in rest by {
        if NoDup(rules) {
          forall i, j | 0 <= i < j < |rules[1..]| ensures rules[1..][i] != rules[1..][j] {
            assert rules[1..][i] == rules[i + 1] && rules[1..][j] == rules[j + 1];
          }
          assert rules[0] !in rules[1..];
        }
      }
      (if Fails(a, takenSlugs, rules[0]) then [rules[0]] else []) + rest
  }

  /** Every constraint is in the list. */
  lemma AllRulesListed()
    ensures forall x: Rule :: x in RULES
  {
    forall x: Rule ensures x in RULES {
      match x
      case SlugUnique =>
      case TitleNotBlank =>
      case SummaryNotBlank =>
      case SummaryMaxLength =>
      case SummaryNoLinksOrClickbait =>
      case ContentNotBlank =>
      case ContentMinLength =>
      case TagsMaxCount =>
    }
  }

  /** The violations of `validate($article)`: one per broken constraint, none twice. */
  function Violations(a: ArticleData, takenSlugs: set<string>): (r: seq<Rule>)
    ensures forall x :: x in r <==> Fails(a, takenSlugs, x)
    ensures NoDup(r)
    ensures |r| <= |RULES|
  {
    AllRulesListed();
    assert NoDup(RULES);
    Collect(a, takenSlugs, RULES)
  }

  /** Each constraint has a message of its own, so no two report the same path and message. */
  lemma ReportsDistinct(x: Rule, y: Rule)
    ensures Message(x) == Message(y) ==> x == y
  {
  }

  /** What `validate($article)` reports: a property path and a message for each broken constraint. */
  function Report(a: ArticleData, takenSlugs: set<string>): (r: seq<(string, string)>)
    ensures forall p :: p in r <==> exists x :: Fails(a, takenSlugs, x) && p == (Path(x), Message(x))
    ensures NoDup(r)
    ensures r == [] <==> IsValid(a, takenSlugs)
  {
    var v := Violations(a, takenSlugs);
    NoViolationsIffValid(a, takenSlugs);
    var r := seq(|v|, i requires 0 <= i < |v| => (Path(v[i]), Message(v[i])));
    assert forall p :: p in r ==> exists x :: Fails(a, takenSlugs, x) && p == (Path(x), Message(x)) by {
      forall p | p in r ensures exists x :: Fails(a, takenSlugs, x) && p == (Path(x), Message(x)) {
        var i :| 0 <= i < |r| && r[i] == p;
        assert v[i] in v;
      }
    }
    assert forall x :: Fails(a, takenSlugs, x) ==> (Path(x), Message(x)) in r by {
      forall x | Fails(a, takenSlugs, x) ensures (Path(x), Message(x)) in r {
        var i :| 0 <= i < |v| && v[i] == x;
        assert r[i] == (Path(x), Message(x));
      }
    }
    forall i, j | 0 <= i < j < |r| ensures r[i] != r[j] {
      ReportsDistinct(v[i], v[j]);
    }
    r
  }

  /** Validation reports nothing exactly when the article is valid. */
  lemma NoViolationsIffValid(a: ArticleData, takenSlugs: set<string>)
    ensures Violations(a, takenSlugs) == [] <==> IsValid(a, takenSlugs)
  {
    var r := Violations(a, takenSlugs);
    var filter := Validator.Violations(a.summary, Validator.NoLinksOrClickbait(Validator.MESSAGE));
    if r == [] {
      forall x: Rule ensures !Fails(a, takenSlugs, x) {
        assert x !in r;
      }
      assert !Fails(a, takenSlugs, SlugUnique) && !Fails(a, takenSlugs, TitleNotBlank);
      assert !Fails(a, takenSlugs, SummaryNotBlank) && !Fails(a, takenSlugs, SummaryMaxLength);
      assert !Fails(a, takenSlugs, SummaryNoLinksOrClickbait) && filter == [];
      assert !Fails(a, takenSlugs, ContentNotBlank) && !Fails(a, takenSlugs, ContentMinLength);
      assert !Fails(a, takenSlugs, TagsMaxCount);
    } else {
      assert Fails(a, takenSlugs, r[0]);
    }
  }

  /** Five tags are too many and four are not, whatever the tags are. */
  lemma TagLimit(a: ArticleData, takenSlugs: set<string>)
    ensures |a.tags| == 5 ==> TagsMaxCount in Violations(a, takenSlugs) && !IsValid(a, takenSlugs)
    ensures |a.tags| == 4 ==> TagsMaxCount !in Violations(a, takenSlugs)
  {
    assert Fails(a, takenSlugs, TagsMaxCount) <==> |a.tags| > MAX_TAGS;
  }
}
