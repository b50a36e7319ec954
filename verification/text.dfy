/** Character classes and string predicates used by the validations and by the specifier normalisation. */
module Text {
  import opened Wrappers

  /** Ruby's `\d`: an ASCII decimal digit. */
  predicate IsDigit(c: char)
  {
    '0' <= c <= '9'
  }

  /** Ruby's `\s`: tab, line feed, vertical tab, form feed, carriage return or space. */
  predicate IsSpace(c: char)
  {
    c == ' ' || c == '\t' || c == '\n' || c == '\r' || c == '\U{B}' || c == '\U{C}'
  }

  /** ActiveSupport's `blank?` on an attribute: `nil`, or a string holding only whitespace. */
  predicate Blank(value: Option<string>)
  {
    match value
    case None => true
    case Some(s) => forall k :: 0 <= k < |s| ==> IsSpace(s[k])
  }

  /** Position `i` starts a line: where a Ruby `^` anchor can match. */
  predicate LineStart(s: string, i: nat)
    requires i <= |s|
  {
    i == 0 || s[i - 1] == '\n'
  }

  /** Position `j` ends a line: where a Ruby `$` anchor can match. */
  predicate LineEnd(s: string, j: nat)
    requires j <= |s|
  {
    j == |s| || s[j] == '\n'
  }

  /** The end of the longest run of characters satisfying `inRun` that starts at `i`. */
  function RunEnd(s: string, i: nat, inRun: char -> bool): (j: nat)
    requires i <= |s|
    ensures i <= j <= |s|
    ensures forall k :: i <= k < j ==> inRun(s[k])
    ensures j == |s| || !inRun(s[j])
    decreases |s| - i
  {
    if i < |s| && inRun(s[i]) then RunEnd(s, i + 1, inRun) else i
  }

  /** A run end is determined by where the run stops: any position that ends the run is the one `RunEnd` finds. */
  lemma RunEndIsUnique(s: string, i: nat, j: nat, inRun: char -> bool)
    requires i <= j <= |s|
    requires forall k :: i <= k < j ==> inRun(s[k])
    requires j == |s| || !inRun(s[j])
    ensures RunEnd(s, i, inRun) == j
  {
  }
}
