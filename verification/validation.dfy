/** What the prompt validators share: the outcome an inquirer validator
    reports, and the name pattern both tools check names against. */
module Validation {

  /** A validator either returns `True` or raises a `ValidationError` whose
      `reason` the prompt shows before asking again. */
  datatype Validated = Valid | ValidationError(reason: string)

  /** One character of the class `[A-Za-z0-9_-]`. */
  predicate NameChar(c: char) {
    ('A' <= c <= 'Z') || ('a' <= c <= 'z') || ('0' <= c <= '9') || c == '_' || c == '-'
  }

  predicate AllNameChars(s: string) {
    forall k :: 0 <= k < |s| ==> NameChar(s[k])
  }

  /** `re.match(r'^[A-Za-z0-9_-]*$', s)` succeeds. In Python's `re`, `$`
      matches at the end of the string and also just before a newline that
      ends it, so one trailing newline gets through. */
  predicate NamePatternMatches(s: string) {
    || AllNameChars(s)
    || (|s| > 0 && s[|s| - 1] == '\n' && AllNameChars(s[..|s| - 1]))
  }

  /** The pattern, character by character: every character is a name
      character, except that the last one may be a newline. */
  lemma NamePatternByChars(s: string)
    ensures NamePatternMatches(s) <==>
            forall k :: 0 <= k < |s| ==> NameChar(s[k]) || (k == |s| - 1 && s[k] == '\n')
  {
    if forall k :: 0 <= k < |s| ==> NameChar(s[k]) || (k == |s| - 1 && s[k] == '\n') {
      if |s| > 0 && s[|s| - 1] == '\n' {
        var t := s[..|s| - 1];
        assert AllNameChars(t) by {
          forall k | 0 <= k < |t| ensures NameChar(t[k]) {
            assert t[k] == s[k];
          }
        }
      }
    }
  }
}
