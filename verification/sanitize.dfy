/** The filename sanitiser of the storage service
    (backup_server/server/services/storage.py, `_sanitize_filename`):
    replace every character outside `[\w\-_. ]` by `_`, strip dots and
    spaces at both ends, and fall back to `"unnamed"`. */
module Filenames {

  predicate IsAsciiWord(c: char) {
    ('a' <= c <= 'z') || ('A' <= c <= 'Z') || ('0' <= c <= '9') || c == '_'
  }

  /** Python's `\w` on `str`. On ASCII it is exactly letters, digits and
      `_`; beyond ASCII it follows Unicode's tables, which the model takes
      as the parameter `unicodeWord`. */
  predicate IsWordChar(c: char, unicodeWord: char -> bool) {
    if c as int < 0x80 then IsAsciiWord(c) else unicodeWord(c)
  }

  /** The characters the pattern `[^\w\-_\. ]` leaves alone. */
  predicate IsSafeChar(c: char, unicodeWord: char -> bool) {
    IsWordChar(c, unicodeWord) || c == '-' || c == '_' || c == '.' || c == ' '
  }

  /** The characters `strip(". ")` removes. */
  predicate IsStripChar(c: char) {
    c == '.' || c == ' '
  }

  /** Every character of `s[a..b]` is a dot or a space. */
  predicate StripBetween(s: string, a: int, b: int) {
    forall k :: 0 <= a <= k < b <= |s| ==> IsStripChar(s[k])
  }

  predicate AllStrip(s: string) {
    StripBetween(s, 0, |s|)
  }

  predicate AllSafe(s: string, unicodeWord: char -> bool) {
    forall i :: 0 <= i < |s| ==> IsSafeChar(s[i], unicodeWord)
  }

  /** What the sanitiser can return: non-empty, only safe characters, and
      no dot or space at either end. */
  predicate IsSanitized(s: string, unicodeWord: char -> bool) {
    && |s| > 0
    && AllSafe(s, unicodeWord)
    && !IsStripChar(s[0])
    && !IsStripChar(s[|s| - 1])
  }

  /** `re.sub(r"[^\w\-_\. ]", "_", s)`. */
  function ReplaceUnsafe(s: string, unicodeWord: char -> bool): (r: string)
    ensures |r| == |s|
    ensures forall i :: 0 <= i < |s| ==>
              r[i] == (if IsSafeChar(s[i], unicodeWord) then s[i] else '_')
  {
    seq(|s|, i requires 0 <= i < |s| => if IsSafeChar(s[i], unicodeWord) then s[i] else '_')
  }

  /** Every character of a string the replacement writes is safe. */
  lemma ReplacedIsSafe(s: string, unicodeWord: char -> bool)
    ensures AllSafe(ReplaceUnsafe(s, unicodeWord), unicodeWord)
  {
  }

  /** `lstrip(". ")` as an index: from `k` on, the first position that
      holds neither a dot nor a space. */
  function LeftCut(s: string, k: nat): (r: nat)
    requires k <= |s|
    ensures k <= r <= |s|
    ensures StripBetween(s, k, r)
    ensures r < |s| ==> !IsStripChar(s[r])
    decreases |s| - k
  {
    if k < |s| && IsStripChar(s[k]) then LeftCut(s, k + 1) else k
  }

  /** `rstrip(". ")` as an index: down from `k`, but not below `lo`, the
      end of the last stretch that does not finish with a dot or a space. */
  function RightCut(s: string, lo: nat, k: nat): (r: nat)
    requires lo <= k <= |s|
    ensures lo <= r <= k
    ensures StripBetween(s, r, k)
    ensures r > lo ==> !IsStripChar(s[r - 1])
    decreases k
  {
    if k > lo && IsStripChar(s[k - 1]) then RightCut(s, lo, k - 1) else k
  }

  /** `strip(". ")`: what is left has no dot or space at either end, and
      nothing is left exactly when the string was all dots and spaces. */
  function Strip(s: string): (r: string)
    ensures |r| <= |s|
    ensures r == [] || (!IsStripChar(r[0]) && !IsStripChar(r[|r| - 1]))
    ensures r == [] <==> AllStrip(s)
  {
    var a := LeftCut(s, 0);
    var b := RightCut(s, a, |s|);
    if a == b then
      assert AllStrip(s) by {
        forall k | 0 <= k < |s| ensures IsStripChar(s[k]) {
          assert StripBetween(s, 0, a) && StripBetween(s, a, |s|);
        }
      }
      []
    else
      assert !AllStrip(s) by {
        assert !IsStripChar(s[a]);
      }
      s[a..b]
  }

  /** Two strings with dots and spaces at the same positions. */
  predicate SamePattern(s: string, t: string) {
    |s| == |t| && forall k :: 0 <= k < |s| ==> (IsStripChar(s[k]) <==> IsStripChar(t[k]))
  }

  /** The replacement only ever writes `_`, so it keeps every dot and space
      where it was and adds none, and the cuts fall where they fall in
      the original name. */
  lemma ReplaceKeepsCuts(name: string, unicodeWord: char -> bool)
    ensures var u := ReplaceUnsafe(name, unicodeWord);
            var a := LeftCut(name, 0);
            && LeftCut(u, 0) == a
            && RightCut(u, a, |u|) == RightCut(name, a, |name|)
  {
    var u := ReplaceUnsafe(name, unicodeWord);
    assert SamePattern(name, u);
  }

  lemma SliceSafe(u: string, a: nat, b: nat, unicodeWord: char -> bool)
    requires a <= b <= |u| && AllSafe(u, unicodeWord)
    ensures AllSafe(u[a..b], unicodeWord)
  {
    forall k | 0 <= k < b - a ensures IsSafeChar(u[a..b][k], unicodeWord) {
      assert u[a..b][k] == u[a + k];
    }
  }

  lemma StripIsSafe(u: string, unicodeWord: char -> bool)
    requires AllSafe(u, unicodeWord)
    ensures AllSafe(Strip(u), unicodeWord)
  {
    var a := LeftCut(u, 0);
    var b := RightCut(u, a, |u|);
    if a != b {
      SliceSafe(u, a, b, unicodeWord);
    }
  }

  lemma UnnamedSanitized(unicodeWord: char -> bool)
    ensures IsSanitized("unnamed", unicodeWord)
  {
    var s := "unnamed";
    forall k | 0 <= k < |s| ensures IsSafeChar(s[k], unicodeWord) {
      assert IsAsciiWord(s[k]);
    }
  }

  /** `_sanitize_filename`: never empty, only safe characters, no dot or
      space at either end, and `"unnamed"` when nothing else is left. */
  function Sanitize(name: string, unicodeWord: char -> bool): (r: string)
    ensures IsSanitized(r, unicodeWord)
    ensures AllStrip(name) ==> r == "unnamed"
  {
    var u := ReplaceUnsafe(name, unicodeWord);
    var t := Strip(u);
    ReplacedIsSafe(name, unicodeWord);
    StripIsSafe(u, unicodeWord);
    ReplaceKeepsCuts(name, unicodeWord);
    UnnamedSanitized(unicodeWord);
    if t == [] then "unnamed" else t
  }

  /** Unless the name is all dots and spaces, the sanitised name is the
      one-for-one replacement of the name between its two cut points, and
      the name holds only dots and spaces outside them. */
  lemma SanitizeKeepsMiddle(name: string, unicodeWord: char -> bool)
    ensures var a := LeftCut(name, 0);
            var b := RightCut(name, a, |name|);
            && StripBetween(name, 0, a) && StripBetween(name, b, |name|)
            && (!AllStrip(name) ==> Sanitize(name, unicodeWord) == ReplaceUnsafe(name, unicodeWord)[a..b])
  {
    ReplaceKeepsCuts(name, unicodeWord);
  }

  /** A name the sanitiser would produce passes through it unchanged. */
  lemma SanitizeKeepsSanitized(s: string, unicodeWord: char -> bool)
    requires IsSanitized(s, unicodeWord)
    ensures Sanitize(s, unicodeWord) == s
  {
    var u := ReplaceUnsafe(s, unicodeWord);
    assert u == s;
    assert LeftCut(s, 0) == 0;
    assert RightCut(s, 0, |s|) == |s|;
    assert s[0..|s|] == s;
  }

  /** The fixed points of the sanitiser are exactly its possible outputs. */
  lemma SanitizeFixedPoints(s: string, unicodeWord: char -> bool)
    ensures Sanitize(s, unicodeWord) == s <==> IsSanitized(s, unicodeWord)
  {
    if IsSanitized(s, unicodeWord) {
      SanitizeKeepsSanitized(s, unicodeWord);
    }
  }

  /** Sanitising twice is sanitising once. */
  lemma SanitizeIdempotent(name: string, unicodeWord: char -> bool)
    ensures Sanitize(Sanitize(name, unicodeWord), unicodeWord) == Sanitize(name, unicodeWord)
  {
    SanitizeKeepsSanitized(Sanitize(name, unicodeWord), unicodeWord);
  }

  /** A sanitised name is a single path component: it never holds `/`. */
  lemma SanitizedHasNoSeparator(s: string, unicodeWord: char -> bool)
    requires IsSanitized(s, unicodeWord)
    ensures '/' !in s
  {
  }
}
