/**
 * The summary filter (src/Validator/NoLinksOrClickbaitValidator.php): a web
 * link marker or a clickbait word, in any ASCII case, is reported once.
 */
module Validator {
  import opened Wrappers
  import opened Strings

  /** The constraint's message (src/Validator/NoLinksOrClickbait.php). */
  const MESSAGE: string := "The summary cannot contain web links or clickbait words."

  const CLICKBAIT_WORDS: seq<string> :=
    ["unbelievable", "shocking", "you won't believe", "secret", "top", "amazing", "incredible"]

  /** The constraint being validated: ours, carrying its message, or any other. */
  datatype Constraint = NoLinksOrClickbait(message: string) | OtherConstraint

  /** `/https?:\/\/|www\./i` matches: one of the three literal markers occurs, ignoring case. */
  predicate HasLink(value: string) {
    ContainsIgnoreCase(value, "http://") || ContainsIgnoreCase(value, "https://") ||
    ContainsIgnoreCase(value, "www.")
  }

  /** Some word of `words` occurs, ignoring case. */
  predicate HasWordAmong(value: string, words: seq<string>) {
    exists w :: w in words && ContainsIgnoreCase(value, w)
  }

  predicate HasClickbait(value: string) {
    HasWordAmong(value, CLICKBAIT_WORDS)
  }

  /** The value is rejected by the filter. */
  predicate IsFlagged(value: string) {
    HasLink(value) || HasClickbait(value)
  }

  /** The violations one `validate` call adds: at most one, carrying the constraint's message. */
  function Violations(value: Option<string>, constraint: Constraint): (r: seq<string>)
    ensures |r| <= 1
    ensures !constraint.NoLinksOrClickbait? ==> r == []
    ensures value == None || value == Some("") ==> r == []
    ensures constraint.NoLinksOrClickbait? && value.Some? && HasLink(value.value) ==>
      r == [constraint.message]
    ensures constraint.NoLinksOrClickbait? && value.Some? && HasClickbait(value.value) ==>
      r == [constraint.message]
    ensures value.Some? && !IsFlagged(value.value) ==> r == []
  {
    match constraint
    case OtherConstraint => []
    case NoLinksOrClickbait(message) =>
      match value
      case None => []
      case Some(v) =>
        if v != "" && IsFlagged(v) then [message] else []
  }

  /** The violation list of a validation run. */
  class ExecutionContext {
    var violations: seq<string>

    constructor ()
      ensures violations == []
    {
      violations := [];
    }

    method AddViolation(message: string)
      modifies this
      ensures violations == old(violations) + [message]
    {
      violations := violations + [message];
    }
  }

  /** `validate($value, $constraint)`: the link test, then the word list with an early return. */
  method Validate(value: Option<string>, constraint: Constraint, context: ExecutionContext)
    modifies context
    ensures context.violations == old(context.violations) + Violations(value, constraint)
  {
    if !constraint.NoLinksOrClickbait? {
      return;
    }
    if value == None || value == Some("") {
      return;
    }
    var v := value.value;
    if HasLink(v) {
      context.AddViolation(constraint.message);
      return;
    }
    for i := 0 to |CLICKBAIT_WORDS|
      invariant !HasWordAmong(v, CLICKBAIT_WORDS[..i])
      invariant context.violations == old(context.violations)
    {
      if ContainsIgnoreCase(v, CLICKBAIT_WORDS[i]) {
        assert CLICKBAIT_WORDS[i] in CLICKBAIT_WORDS;
        context.AddViolation(constraint.message);
        return;
      }
      assert CLICKBAIT_WORDS[..i + 1] == CLICKBAIT_WORDS[..i] + [CLICKBAIT_WORDS[i]];
    }
    assert CLICKBAIT_WORDS[..|CLICKBAIT_WORDS|] == CLICKBAIT_WORDS;
  }

  /** Matching is by substring, not by whole word: "laptop" contains "top". */
  lemma LaptopIsClickbait()
    ensures IsFlagged("laptop")
    ensures Violations(Some("laptop"), NoLinksOrClickbait(MESSAGE)) == [MESSAGE]
  {
    assert MatchAt("laptop", "top", 3);
    assert "top" in CLICKBAIT_WORDS;
  }

  /** Case is ignored: an upper-case link marker is still a link, and the summary is rejected. */
  lemma UpperCaseLinkIsFlagged()
    ensures Violations(Some("Visit WWW.EXAMPLE.COM"), NoLinksOrClickbait(MESSAGE)) == [MESSAGE]
  {
    assert MatchAt("Visit WWW.EXAMPLE.COM", "www.", 6);
  }

  /** The verdict does not depend on the ASCII case of the value. */
  lemma VerdictIgnoresCase(v: string, v': string, constraint: Constraint)
    requires SameIgnoringCase(v, v')
    ensures IsFlagged(v) <==> IsFlagged(v')
    ensures Violations(Some(v), constraint) == Violations(Some(v'), constraint)
  {
    ContainsIgnoresCase(v, v', "http://", "http://");
    ContainsIgnoresCase(v, v', "https://", "https://");
    ContainsIgnoresCase(v, v', "www.", "www.");
    forall w | w in CLICKBAIT_WORDS ensures ContainsIgnoreCase(v, w) <==> ContainsIgnoreCase(v', w) {
      ContainsIgnoresCase(v, v', w, w);
    }
  }

  /** Shouting does not get a summary past the filter. */
  lemma UpperCasedVerdict(v: string, constraint: Constraint)
    ensures Violations(Some(UpperCase(v)), constraint) == Violations(Some(v), constraint)
  {
    UpperCaseSameIgnoringCase(v);
    VerdictIgnoresCase(v, UpperCase(v), constraint);
  }

  /** A link marker or a clickbait word, written in any case and surrounded by any text, is rejected. */
  lemma MarkerInAnyCaseIsFlagged(pre: string, word: string, word': string, post: string, message: string)
    requires word in ["http://", "https://", "www."] || word in CLICKBAIT_WORDS
    requires SameIgnoringCase(word, word')
    ensures Violations(Some(pre + word' + post), NoLinksOrClickbait(message)) == [message]
  {
    FoundInAnyCase(pre, word, word', post);
    assert |pre + word' + post| >= |word'| == |word| > 0;
  }

  /** A link anywhere in a summary is flagged, whatever surrounds it. */
  lemma LinkInContextIsFlagged(pre: string, post: string)
    ensures Violations(Some(pre + "http://" + post), NoLinksOrClickbait(MESSAGE)) == [MESSAGE]
  {
    assert MatchAt("http://", "http://", 0);
    ContainsInContext(pre, "http://", post, "http://");
  }

  /** The scenario summary with a link is rejected with the constraint's message. */
  lemma ScenarioLinkSummary()
    ensures Violations(Some("Check out http://example.com now!"), NoLinksOrClickbait(MESSAGE)) == [MESSAGE]
  {
    assert MatchAt("Check out http://example.com now!", "http://", 10);
  }
}
