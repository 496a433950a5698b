/**
 * The members of .NET's System.String and System.Char that the helpers call,
 * over strings modelled as `seq<char>`, whose elements are Unicode scalar values
 * (so lone UTF-16 surrogate halves are not represented).
 * All comparisons are ordinal.
 */
module SystemString {
  import opened Wrappers

  type String = seq<char>

  /** string.IsNullOrEmpty */
  predicate IsNullOrEmpty(s: Option<String>) {
    s.None? || |s.value| == 0
  }

  /**
   * Char.IsWhiteSpace: the members of the Unicode categories SpaceSeparator,
   * LineSeparator and ParagraphSeparator, plus U+0009..U+000D and U+0085.
   */
  predicate IsWhiteSpace(c: char) {
    var u := c as int;
    (0x09 <= u <= 0x0D) || u == 0x20 || u == 0x85 || u == 0xA0 || u == 0x1680
    || (0x2000 <= u <= 0x200A) || u == 0x2028 || u == 0x2029 || u == 0x202F
    || u == 0x205F || u == 0x3000
  }

  /** string.IsNullOrWhiteSpace: null, or every character is white space (so also ""). */
  predicate IsNullOrWhiteSpace(s: Option<String>) {
    s.None? || forall i :: 0 <= i < |s.value| ==> IsWhiteSpace(s.value[i])
  }

  /** string.IndexOf(char): the first position of `c`, or -1 when `c` does not occur. */
  function IndexOf(s: String, c: char): (r: int)
    ensures -1 <= r < |s|
    ensures r == -1 <==> c !in s
    ensures 0 <= r ==> s[r] == c && forall j :: 0 <= j < r ==> s[j] != c
  {
    if |s| == 0 then -1
    else if s[0] == c then 0
    else
      var k := IndexOf(s[1..], c);
      if k == -1 then -1 else k + 1
  }

  /** string.LastIndexOf(char): the last position of `c`, or -1 when `c` does not occur. */
  function LastIndexOf(s: String, c: char): (r: int)
    ensures -1 <= r < |s|
    ensures r == -1 <==> c !in s
    ensures 0 <= r ==> s[r] == c && forall j :: r < j < |s| ==> s[j] != c
  {
    if |s| == 0 then -1
    else if s[|s| - 1] == c then |s| - 1
    else LastIndexOf(s[..|s| - 1], c)
  }

  /** `t` occurs in `s` starting at position `i`. */
  predicate OccursAt(s: String, t: String, i: int) {
    0 <= i && i + |t| <= |s| && s[i..i + |t|] == t
  }

  /** string.Contains(string): ordinal search for `t` as a contiguous piece of `s`. */
  function Contains(s: String, t: String): (r: bool)
    ensures r <==> exists i :: OccursAt(s, t, i)
    decreases |s|
  {
    if |t| > |s| then false
    else if s[..|t|] == t then
      assert OccursAt(s, t, 0);
      true
    else if |s| == 0 then false
    else
      var r := Contains(s[1..], t);
      assert r ==> exists i :: OccursAt(s, t, i) by {
        if r {
          var i :| OccursAt(s[1..], t, i);
          assert s[1..][i..i + |t|] == s[i + 1..i + 1 + |t|];
          assert OccursAt(s, t, i + 1);
        }
      }
      assert forall i :: OccursAt(s, t, i) ==> i == 0 || OccursAt(s[1..], t, i - 1) by {
        forall i | OccursAt(s, t, i) && i != 0 ensures OccursAt(s[1..], t, i - 1) {
          assert s[1..][i - 1..i - 1 + |t|] == s[i..i + |t|];
        }
      }
      r
  }

  /** string.StartsWith(string), ordinal. */
  predicate StartsWith(s: String, t: String) {
    |t| <= |s| && s[..|t|] == t
  }

  /** string.EndsWith(string), ordinal. */
  predicate EndsWith(s: String, t: String) {
    |t| <= |s| && s[|s| - |t|..] == t
  }
}
