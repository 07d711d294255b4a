/** Character classes and string scanning used by the scraper: the removal of
    newline characters from an input line, and the two regular expressions
    `([\d,.]+)` (the price token) and ` (\d+)/\w+` (the pack size in a product
    name), each written as a leftmost-match function together with the
    regular expression's own meaning, so that the two can be proved to agree.

    PHP strings are byte strings; the model uses `seq<char>`. Both patterns
    are compiled without the `u` flag, so `\d` and `\w` match ASCII only. */
module Strings {

  datatype Option<T> = None | Some(value: T)

  /** `\d` of a non-Unicode PCRE pattern. */
  predicate IsDigit(c: char) { '0' <= c <= '9' }

  /** `\w` of a non-Unicode PCRE pattern under the C locale. */
  predicate IsWordChar(c: char) {
    'a' <= c <= 'z' || 'A' <= c <= 'Z' || IsDigit(c) || c == '_'
  }

  /** The character class `[\d,.]`. */
  predicate IsPriceChar(c: char) { IsDigit(c) || c == ',' || c == '.' }

  /** A non-empty string of decimal digits. */
  predicate IsNumeral(s: string) {
    |s| > 0 && forall k :: 0 <= k < |s| ==> IsDigit(s[k])
  }

  // ---------------------------------------------------------------------
  // str_replace("\n", '', $line)
  // ---------------------------------------------------------------------

  /** `str_replace("\n", '', $s)`. */
  function StripNewlines(s: string): string {
    if s == [] then [] else (if s[0] == '\n' then [] else [s[0]]) + StripNewlines(s[1..])
  }

  /** Every `'\n'` is removed and every other character kept, in order: a
      string without newlines is left as it is. */
  lemma {:induction false} StripNewlinesSpec(s: string)
    ensures '\n' !in StripNewlines(s)
    ensures '\n' !in s ==> StripNewlines(s) == s
    ensures forall c :: c != '\n' ==> multiset(StripNewlines(s))[c] == multiset(s)[c]
    ensures |StripNewlines(s)| == |s| - multiset(s)['\n']
    decreases |s|
  {
    if s != [] {
      StripNewlinesSpec(s[1..]);
      assert s == [s[0]] + s[1..];
    }
  }

  /** The kept characters stay in their order: stripping works piece by
      piece, so the result follows the input character after character. */
  lemma {:induction false} StripNewlinesAppend(a: string, b: string)
    ensures StripNewlines(a + b) == StripNewlines(a) + StripNewlines(b)
    decreases |a|
  {
    if a != [] {
      var head := if a[0] == '\n' then [] else [a[0]];
      assert (a + b)[0] == a[0] && a + b != [];
      assert (a + b)[1..] == a[1..] + b;
      StripNewlinesAppend(a[1..], b);
      assert StripNewlines(a + b) == head + StripNewlines(a[1..] + b);
      assert StripNewlines(a) == head + StripNewlines(a[1..]);
    } else {
      assert a + b == b;
    }
  }

  /** A line as `fgets` returns it, with its terminating newline, strips to
      the line's text. */
  lemma StripNewlinesDropsTerminator(s: string)
    requires '\n' !in s
    ensures StripNewlines(s + "\n") == s
  {
    StripNewlinesAppend(s, "\n");
    StripNewlinesSpec(s);
    assert "\n"[1..] == [];
  }

  // ---------------------------------------------------------------------
  // Scanning
  // ---------------------------------------------------------------------

  /** The first index at or after `from` whose character is in the class,
      or `|s|` when there is none. */
  function FirstIn(s: string, from: nat, inClass: char -> bool): (i: nat)
    requires from <= |s|
    ensures from <= i <= |s|
    ensures i < |s| ==> inClass(s[i])
    ensures forall k :: from <= k < i ==> !inClass(s[k])
    decreases |s| - from
  {
    if from == |s| || inClass(s[from]) then from else FirstIn(s, from + 1, inClass)
  }

  /** The end of the longest run of class characters that starts at `i`. */
  function RunEnd(s: string, i: nat, inClass: char -> bool): (j: nat)
    requires i <= |s|
    ensures i <= j <= |s|
    ensures forall k :: i <= k < j ==> inClass(s[k])
    ensures j == |s| || !inClass(s[j])
    decreases |s| - i
  {
    if i == |s| || !inClass(s[i]) then i else RunEnd(s, i + 1, inClass)
  }

  // ---------------------------------------------------------------------
  // preg_match('/([\d,.]+)/', $s, $matches); $matches[1]
  // ---------------------------------------------------------------------

  /** What the pattern `([\d,.]+)` means: a match of the group from `i` to
      `j` that starts at the leftmost possible position and, the quantifier
      being greedy, extends as far as it can. */
  predicate PriceMatch(s: string, i: nat, j: nat) {
    i < j <= |s| &&
    (forall k :: 0 <= k < i ==> !IsPriceChar(s[k])) &&
    (forall k :: i <= k < j ==> IsPriceChar(s[k])) &&
    (j == |s| || !IsPriceChar(s[j]))
  }

  /** The captured group, or None when the pattern does not match. */
  function PriceToken(s: string): (r: Option<string>)
    ensures r.None? <==> forall k :: 0 <= k < |s| ==> !IsPriceChar(s[k])
    ensures r.Some? ==> |r.value| > 0 && forall k :: 0 <= k < |r.value| ==> IsPriceChar(r.value[k])
    ensures r.Some? ==> '/' !in r.value
  {
    var i := FirstIn(s, 0, IsPriceChar);
    if i == |s| then None else Some(s[i..RunEnd(s, i, IsPriceChar)])
  }

  /** The scan returns exactly the leftmost longest match. */
  lemma PriceTokenIsMatch(s: string, i: nat, j: nat)
    requires PriceMatch(s, i, j)
    ensures PriceToken(s) == Some(s[i..j])
  {
    assert IsPriceChar(s[i]);
    var i' := FirstIn(s, 0, IsPriceChar);
    assert i' == i;
  }

  /** Whenever the scan finds a token, it is a leftmost longest match. */
  lemma PriceTokenMatches(s: string)
    requires PriceToken(s).Some?
    ensures exists i: nat, j: nat :: PriceMatch(s, i, j) && PriceToken(s).value == s[i..j]
  {
    var i := FirstIn(s, 0, IsPriceChar);
    var j := RunEnd(s, i, IsPriceChar);
    assert PriceMatch(s, i, j);
  }

  // ---------------------------------------------------------------------
  // preg_match('/ (\d+)\/\w+/', $name, $matches); $matches[1] ?? '1'
  // ---------------------------------------------------------------------

  /** What the pattern ` (\d+)/\w+` means: it matches starting at `i` with
      its group ending at `j` (the `\d+` may give back characters while the
      engine backtracks, which is why `j` is free here). */
  predicate QtyPattern(s: string, i: nat, j: nat) {
    i + 1 < j && j + 1 < |s| && s[i] == ' ' &&
    (forall k :: i + 1 <= k < j ==> IsDigit(s[k])) &&
    s[j] == '/' && IsWordChar(s[j + 1])
  }

  /** The check the search performs at one start position: the longest run
      of digits after the space is non-empty and is followed by `/` and a
      word character. */
  predicate QtyMatchAt(s: string, i: nat) {
    i < |s| && s[i] == ' ' &&
    var j := RunEnd(s, i + 1, IsDigit);
    i + 1 < j && j + 1 < |s| && s[j] == '/' && IsWordChar(s[j + 1])
  }

  /** Backtracking cannot help: the pattern matches at `i` exactly when the
      check does, and then only with the group ending where the digit run
      ends, because `/` is not a digit. */
  lemma QtyMatchAtMeansPattern(s: string, i: nat, j: nat)
    ensures QtyPattern(s, i, j) ==> QtyMatchAt(s, i) && j == RunEnd(s, i + 1, IsDigit)
    ensures QtyMatchAt(s, i) ==> QtyPattern(s, i, RunEnd(s, i + 1, IsDigit))
  {
    if QtyPattern(s, i, j) {
      assert !IsDigit(s[j]);
    }
  }

  /** The leftmost start position at or after `from` where the check holds. */
  function FindQtyMatch(s: string, from: nat): (r: Option<nat>)
    requires from <= |s|
    ensures r.Some? ==> from <= r.value < |s| && QtyMatchAt(s, r.value)
    ensures r.Some? ==> forall k :: from <= k < r.value ==> !QtyMatchAt(s, k)
    ensures r.None? ==> forall k :: from <= k < |s| ==> !QtyMatchAt(s, k)
    decreases |s| - from
  {
    if from == |s| then None
    else if QtyMatchAt(s, from) then Some(from)
    else FindQtyMatch(s, from + 1)
  }

  /** The captured digit group of the leftmost match, or None. */
  function QtyGroup(s: string): (r: Option<string>)
    ensures r.Some? ==> IsNumeral(r.value)
  {
    match FindQtyMatch(s, 0)
    case None => None
    case Some(i) => Some(s[i + 1..RunEnd(s, i + 1, IsDigit)])
  }

  /** The group of the leftmost match of the pattern is what the search
      captures. */
  lemma {:induction false} QtyGroupIsLeftmostMatch(s: string, i: nat, j: nat)
    requires QtyPattern(s, i, j)
    requires forall i': nat, j': nat :: i' < i ==> !QtyPattern(s, i', j')
    ensures QtyGroup(s) == Some(s[i + 1..j])
  {
    QtyMatchAtMeansPattern(s, i, j);
    forall k: nat | k < i ensures !QtyMatchAt(s, k) {
      QtyMatchAtMeansPattern(s, k, RunEnd(s, k + 1, IsDigit));
    }
    var r := FindQtyMatch(s, 0);
    assert r == Some(i);
  }

  /** The search captures nothing exactly when the pattern matches nowhere. */
  lemma {:induction false} QtyGroupNoneIffNoMatch(s: string)
    ensures QtyGroup(s).None? <==> forall i: nat, j: nat :: !QtyPattern(s, i, j)
  {
    if QtyGroup(s).None? {
      forall i: nat, j: nat ensures !QtyPattern(s, i, j) {
        QtyMatchAtMeansPattern(s, i, j);
      }
    } else {
      var i := FindQtyMatch(s, 0).value;
      QtyMatchAtMeansPattern(s, i, RunEnd(s, i + 1, IsDigit));
      assert QtyPattern(s, i, RunEnd(s, i + 1, IsDigit));
    }
  }
}
