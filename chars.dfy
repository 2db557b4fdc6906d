// ASCII character classes of <cctype> in the "C" locale.
module Chars {

  /** std::isspace: space, \t, \n, \v, \f, \r. */
  predicate IsSpace(c: char) {
    c == ' ' || c == '\t' || c == '\n' || c == '\U{0B}' || c == '\U{0C}' || c == '\r'
  }

  /** std::isupper: 'A'..'Z'. */
  predicate IsUpper(c: char) {
    'A' <= c <= 'Z'
  }

  /** std::isdigit: '0'..'9'. */
  predicate IsDigit(c: char) {
    '0' <= c <= '9'
  }

  /** std::all_of(w, isupper); true of the empty word. */
  predicate AllUpper(w: string) {
    forall k :: 0 <= k < |w| ==> IsUpper(w[k])
  }

  /** The end of the longest run of characters satisfying p that starts at i:
      what `many(char_p_if(p))` and the whitespace loops consume. */
  function RunEnd(p: char -> bool, s: string, i: nat): (j: nat)
    ensures i <= |s| ==> i <= j <= |s|
    ensures i <= |s| ==> forall k :: i <= k < j ==> p(s[k])
    ensures i <= |s| ==> j == |s| || !p(s[j])
    ensures i > |s| ==> j == i
    decreases |s| - i
  {
    if i < |s| && p(s[i]) then RunEnd(p, s, i + 1) else i
  }

  /** The run is determined by its two boundary facts. */
  lemma RunEndAt(p: char -> bool, s: string, i: nat, j: nat)
    requires i <= j <= |s|
    requires forall k :: i <= k < j ==> p(s[k])
    requires j == |s| || !p(s[j])
    ensures RunEnd(p, s, i) == j
  {
  }

  /** The start of the longest run of characters satisfying p that ends
      at j: std::string::find_last_not_of + 1 when j == |s|, 0 when every
      character is in the run. */
  function RunStart(p: char -> bool, s: string, j: nat): (i: nat)
    requires j <= |s|
    ensures i <= j
    ensures forall k :: i <= k < j ==> p(s[k])
    ensures i == 0 || !p(s[i - 1])
    decreases j
  {
    if j > 0 && p(s[j - 1]) then RunStart(p, s, j - 1) else j
  }

  /** The backward run is determined by its two boundary facts too. */
  lemma {:induction false} RunStartAt(p: char -> bool, s: string, i: nat, j: nat)
    requires i <= j <= |s|
    requires forall k :: i <= k < j ==> p(s[k])
    requires i == 0 || !p(s[i - 1])
    ensures RunStart(p, s, j) == i
    decreases j
  {
    if j > i {
      RunStartAt(p, s, i, j - 1);
    }
  }
}
