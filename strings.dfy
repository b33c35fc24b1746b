/**
 * The PHP string primitives the core relies on: ASCII case folding as PHP 8's
 * `stripos` and a PCRE `/i` pattern do it, `explode` on a one-character
 * separator, and `empty()` on a string.
 */
module Strings {

  /** ASCII lower-casing; every other character is left as it is. */
  function AsciiLower(c: char): (r: char)
    ensures 'A' <= c <= 'Z' ==> 'a' <= r <= 'z' && r as int == c as int + 32
    ensures !('A' <= c <= 'Z') ==> r == c
  {
    if 'A' <= c <= 'Z' then (c as int + 32) as char else c
  }

  /** `needle` occurs in `hay` at position `i`, ignoring ASCII case. */
  predicate MatchAt(hay: string, needle: string, i: nat) {
    i + |needle| <= |hay| &&
    forall k :: 0 <= k < |needle| ==> AsciiLower(hay[i + k]) == AsciiLower(needle[k])
  }

  /** `stripos($hay, $needle) !== false`: a case-insensitive substring search. */
  predicate ContainsIgnoreCase(hay: string, needle: string) {
    exists i: nat :: i <= |hay| && MatchAt(hay, needle, i)
  }

  /** A match is preserved when more text is put in front of or behind the haystack. */
  lemma ContainsInContext(pre: string, hay: string, post: string, needle: string)
    requires ContainsIgnoreCase(hay, needle)
    ensures ContainsIgnoreCase(pre + hay + post, needle)
  {
    var i: nat :| i <= |hay| && MatchAt(hay, needle, i);
    var whole := pre + hay + post;
    forall k | 0 <= k < |needle| ensures AsciiLower(whole[|pre| + i + k]) == AsciiLower(needle[k]) {
      assert whole[|pre| + i + k] == hay[i + k];
    }
    assert MatchAt(whole, needle, |pre| + i);
  }

  /** ASCII upper-casing; every other character is left as it is. */
  function AsciiUpper(c: char): char {
    if 'a' <= c <= 'z' then (c as int - 32) as char else c
  }

  /** Upper-casing a letter does not change what it folds to. */
  lemma FoldIgnoresUpper(c: char)
    ensures AsciiLower(AsciiUpper(c)) == AsciiLower(c)
  {
  }

  /** Two strings that differ at most in the ASCII case of their letters. */
  predicate SameIgnoringCase(a: string, b: string) {
    |a| == |b| && forall k :: 0 <= k < |a| ==> AsciiLower(a[k]) == AsciiLower(b[k])
  }

  /** Every letter of `s` upper-cased. */
  function UpperCase(s: string): (r: string)
    ensures |r| == |s| && forall k :: 0 <= k < |s| ==> r[k] == AsciiUpper(s[k])
  {
    seq(|s|, k requires 0 <= k < |s| => AsciiUpper(s[k]))
  }

  /** A string and its upper-cased form differ only in case. */
  lemma UpperCaseSameIgnoringCase(s: string)
    ensures SameIgnoringCase(s, UpperCase(s))
  {
    forall k | 0 <= k < |s| ensures AsciiLower(s[k]) == AsciiLower(UpperCase(s)[k]) {
      FoldIgnoresUpper(s[k]);
    }
  }

  /** A match does not depend on the case of either the haystack or the needle. */
  lemma MatchAtIgnoresCase(hay: string, hay': string, needle: string, needle': string, i: nat)
    requires SameIgnoringCase(hay, hay') && SameIgnoringCase(needle, needle')
    ensures MatchAt(hay, needle, i) <==> MatchAt(hay', needle', i)
  {
    if MatchAt(hay, needle, i) {
      forall k | 0 <= k < |needle'| ensures AsciiLower(hay'[i + k]) == AsciiLower(needle'[k]) {
        assert AsciiLower(hay[i + k]) == AsciiLower(needle[k]);
      }
    }
    if MatchAt(hay', needle', i) {
      forall k | 0 <= k < |needle| ensures AsciiLower(hay[i + k]) == AsciiLower(needle[k]) {
        assert AsciiLower(hay'[i + k]) == AsciiLower(needle'[k]);
      }
    }
  }

  /** `stripos` finds a needle in a haystack exactly when it finds it with either one's letters in any case. */
  lemma ContainsIgnoresCase(hay: string, hay': string, needle: string, needle': string)
    requires SameIgnoringCase(hay, hay') && SameIgnoringCase(needle, needle')
    ensures ContainsIgnoreCase(hay, needle) <==> ContainsIgnoreCase(hay', needle')
  {
    if ContainsIgnoreCase(hay, needle) {
      var i: nat :| i <= |hay| && MatchAt(hay, needle, i);
      MatchAtIgnoresCase(hay, hay', needle, needle', i);
    }
    if ContainsIgnoreCase(hay', needle') {
      var i: nat :| i <= |hay'| && MatchAt(hay', needle', i);
      MatchAtIgnoresCase(hay, hay', needle, needle', i);
    }
  }

  /** A needle is found inside any text that holds it in some case. */
  lemma FoundInAnyCase(pre: string, word: string, word': string, post: string)
    requires SameIgnoringCase(word, word')
    ensures ContainsIgnoreCase(pre + word' + post, word)
  {
    assert MatchAt(word', word, 0);
    ContainsInContext(pre, word', post, word);
  }

  /** `empty($s)` on a string: true for "" and also for "0". */
  predicate PhpEmpty(s: string) {
    s == "" || s == "0"
  }

  /** `explode(',', $s)`: the pieces between the commas, untrimmed, in order. */
  function Explode(s: string): (r: seq<string>)
    ensures |r| >= 1
  {
    if s == [] then [""]
    else
      var rest := Explode(s[1..]);
      if s[0] == ',' then [""] + rest
      else [[s[0]] + rest[0]] + rest[1..]
  }

  /** `implode(',', $pieces)` for a non-empty list of pieces. */
  function Implode(pieces: seq<string>): string
    requires |pieces| >= 1
  {
    if |pieces| == 1 then pieces[0] else pieces[0] + "," + Implode(pieces[1..])
  }

  /** No piece produced by `Explode` contains the separator. */
  lemma {:induction false} ExplodeNoComma(s: string)
    ensures forall p :: p in Explode(s) ==> ',' !in p
  {
    if s != [] {
      ExplodeNoComma(s[1..]);
    }
  }

  /** The number of pieces is one more than the number of commas. */
  lemma {:induction false} ExplodeCount(s: string)
    ensures |Explode(s)| == multiset(s)[','] + 1
  {
    if s != [] {
      ExplodeCount(s[1..]);
      assert s == [s[0]] + s[1..];
    }
  }

  /** Joining the pieces back with commas gives the original string. */
  lemma {:induction false} ImplodeExplode(s: string)
    ensures Implode(Explode(s)) == s
  {
    if s != [] {
      var rest := Explode(s[1..]);
      ImplodeExplode(s[1..]);
      if s[0] == ',' {
        assert ([""] + rest)[1..] == rest;
      } else {
        var r := Explode(s);
        assert r[0] == [s[0]] + rest[0];
        assert r[1..] == rest[1..];
        if |rest| > 1 {
          assert Implode(rest) == rest[0] + "," + Implode(rest[1..]);
        }
      }
      assert s == [s[0]] + s[1..];
    }
  }

  /** Splitting a comma-free, comma-joined list gives back that list. */
  lemma {:induction false} ExplodeImplode(pieces: seq<string>)
    requires |pieces| >= 1
    requires forall p :: p in pieces ==> ',' !in p
    ensures Explode(Implode(pieces)) == pieces
  {
    if |pieces| == 1 {
      ExplodeNoSeparator(pieces[0]);
    } else {
      ExplodeImplode(pieces[1..]);
      ExplodeCommaJoin(pieces[0], Implode(pieces[1..]));
    }
  }

  /** A string without a comma is a single piece. */
  lemma {:induction false} ExplodeNoSeparator(s: string)
    requires ',' !in s
    ensures Explode(s) == [s]
  {
    if s != [] {
      ExplodeNoSeparator(s[1..]);
      assert s == [s[0]] + s[1..];
    }
  }

  /** A comma-free head in front of a comma splits off as the first piece. */
  lemma {:induction false} ExplodeCommaJoin(head: string, tail: string)
    requires ',' !in head
    ensures Explode(head + "," + tail) == [head] + Explode(tail)
  {
    if head == [] {
      assert head + "," + tail == [','] + tail;
      assert ([','] + tail)[1..] == tail;
    } else {
      var s := head + "," + tail;
      assert s[1..] == head[1..] + "," + tail;
      ExplodeCommaJoin(head[1..], tail);
      assert [head[0]] + head[1..] == head;
    }
  }
}
