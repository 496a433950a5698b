/**
 * The string helpers of StringHelper/StringExtension.cs. A nullable C# string is an
 * `Option<String>`; a string is a sequence of Dafny chars (Unicode scalar values);
 * counts are unbounded ints.
 */
module StringExtension {
  import opened Wrappers
  import opened SystemString

  // ---------------------------------------------------------------- Left / Right

  /** The number of characters Left and Right keep: `n` clamped to `0..len`. */
  function Clamp(n: int, len: nat): nat {
    if n <= 0 then 0 else if n >= len then len else n
  }

  /** `r` is a suffix of `s`. */
  predicate IsSuffix(r: String, s: String) {
    |r| <= |s| && s[|s| - |r|..] == r
  }

  /** The leftmost `n` characters: a prefix of the input, with `n` clamped to its length. */
  function Left(input: Option<String>, n: int): (r: String)
    ensures input.None? || n <= 0 ==> r == []
    ensures input.Some? ==> r <= input.value && |r| == Clamp(n, |input.value|)
  {
    if IsNullOrEmpty(input) || n <= 0 then []
    else if n >= |input.value| then input.value
    else input.value[..n]
  }

  /** The rightmost `n` characters: a suffix of the input, with `n` clamped to its length. */
  function Right(input: Option<String>, n: int): (r: String)
    ensures input.None? || n <= 0 ==> r == []
    ensures input.Some? ==> IsSuffix(r, input.value) && |r| == Clamp(n, |input.value|)
  {
    if IsNullOrEmpty(input) || n <= 0 then []
    else if n >= |input.value| then input.value
    else input.value[|input.value| - n..]
  }

  /** A count at or above the length gives back the whole input. */
  lemma LeftRightWhole(s: String, n: int)
    requires n >= |s|
    ensures Left(Some(s), n) == s && Right(Some(s), n) == s
  {
  }

  /** Left and Right of complementary counts split the input in two. */
  lemma LeftRightSplit(s: String, n: int)
    requires 0 <= n <= |s|
    ensures Left(Some(s), n) + Right(Some(s), |s| - n) == s
  {
  }

  /** The test suite's Left and Right cases. */
  lemma LeftRightScenarios()
    ensures Left(Some("Hello, World!"), 5) == "Hello"
    ensures Left(Some("Short"), 10) == "Short" && Left(Some("Edge"), 4) == "Edge"
    ensures Left(Some(""), 3) == "" && Left(None, 4) == ""
    ensures Left(Some("Sample"), 0) == "" && Left(Some("Sample"), -3) == ""
    ensures Right(Some("Hello, World!"), 6) == "World!"
    ensures Right(Some("Short"), 10) == "Short" && Right(Some("EdgeCase"), 8) == "EdgeCase"
    ensures Right(Some(""), 3) == "" && Right(None, 4) == "" && Right(Some("Sample"), -3) == ""
  {
  }

  // ---------------------------------------------------------------- Reverse

  /** Reference definition of a reversed sequence. */
  function Reversed(s: String): (r: String)
    ensures |r| == |s|
  {
    if |s| == 0 then [] else Reversed(s[1..]) + [s[0]]
  }

  lemma {:induction false} ReversedAt(s: String, i: int)
    requires 0 <= i < |s|
    ensures Reversed(s)[i] == s[|s| - 1 - i]
  {
    if i < |s| - 1 {
      ReversedAt(s[1..], i);
    }
  }

  lemma ReversedInvolution(s: String)
    ensures Reversed(Reversed(s)) == s
  {
    forall i | 0 <= i < |s| ensures Reversed(Reversed(s))[i] == s[i] {
      ReversedAt(Reversed(s), i);
      ReversedAt(s, |s| - 1 - i);
    }
  }

  /** Any sequence that mirrors `s` position by position is its reversal. */
  lemma ReversedIs(s: String, t: String)
    requires |t| == |s|
    requires forall i :: 0 <= i < |s| ==> t[i] == s[|s| - 1 - i]
    ensures Reversed(s) == t
  {
    forall i | 0 <= i < |s| ensures Reversed(s)[i] == t[i] {
      ReversedAt(s, i);
    }
  }

  /** What Reverse returns: null and "" are passed through, anything else is reversed. */
  function ReverseOf(str: Option<String>): Option<String> {
    if IsNullOrEmpty(str) then str else Some(Reversed(str.value))
  }

  /** Reversing twice gives back the input, null included. */
  lemma ReverseOfInvolution(str: Option<String>)
    ensures ReverseOf(ReverseOf(str)) == str
  {
    if !IsNullOrEmpty(str) {
      ReversedInvolution(str.value);
    }
  }

  /** The test suite's Reverse cases. */
  lemma ReverseScenarios()
    ensures ReverseOf(Some("abc")) == Some("cba")
    ensures ReverseOf(Some(" 123 ")) == Some(" 321 ")
    ensures ReverseOf(Some("A")) == Some("A")
    ensures ReverseOf(Some("")) == Some("") && ReverseOf(None) == None
  {
    ReversedIs("abc", "cba");
    ReversedIs(" 123 ", " 321 ");
    ReversedIs("A", "A");
  }

  /** The test suite's first Reverse case, on the thirteen-character greeting. */
  lemma ReverseGreetingScenario(s: String)
    requires s == "Hello, World!"
    ensures ReverseOf(Some(s)) == Some("!dlroW ,olleH")
  {
    ReversedIs(s, "!dlroW ,olleH");
  }

  /**
   * Reverse: copies the input to a char array, reverses it in place by swapping
   * mirrored positions (Array.Reverse), and builds a new string from the array.
   */
  method Reverse(str: Option<String>) returns (r: Option<String>)
    ensures IsNullOrEmpty(str) ==> r == str
    ensures !IsNullOrEmpty(str) ==> r.Some? && |r.value| == |str.value|
    ensures !IsNullOrEmpty(str) ==>
      forall i :: 0 <= i < |str.value| ==> r.value[i] == str.value[|str.value| - 1 - i]
    ensures r == ReverseOf(str)
  {
    if IsNullOrEmpty(str) {
      return str;
    }
    var s := str.value;
    var n := |s|;
    var charArray := new char[n](i requires 0 <= i < n => s[i]);
    var i := 0;
    while i < n / 2
      invariant 0 <= i <= n / 2
      invariant forall k :: 0 <= k < i ==> charArray[k] == s[n - 1 - k] && charArray[n - 1 - k] == s[k]
      invariant forall k :: i <= k < n - i ==> charArray[k] == s[k]
    {
      charArray[i], charArray[n - 1 - i] := charArray[n - 1 - i], charArray[i];
      i := i + 1;
    }
    r := Some(charArray[..]);
    ReversedIs(s, r.value);
  }

  /** Right is Left seen through a mirror. */
  lemma RightIsMirroredLeft(s: String, n: int)
    ensures Right(Some(s), n) == Reversed(Left(Some(Reversed(s)), n))
  {
    var m := Clamp(n, |s|);
    var l := Left(Some(Reversed(s)), n);
    forall j | 0 <= j < m ensures Reversed(l)[j] == Right(Some(s), n)[j] {
      ReversedAt(l, j);
      ReversedAt(s, m - 1 - j);
    }
  }

  // ---------------------------------------------------------------- Repeat

  /** `k` copies of `s`, concatenated. */
  function Repeated(s: String, k: nat): (r: String)
    ensures |r| == k * |s|
  {
    if k == 0 then [] else s + Repeated(s, k - 1)
  }

  /** Copy number `q` sits at offset `q * |s|`. */
  lemma {:induction false} RepeatedAt(s: String, k: nat, q: nat, j: nat)
    requires q < k && j < |s|
    ensures q * |s| + j < |Repeated(s, k)| && Repeated(s, k)[q * |s| + j] == s[j]
  {
    if q > 0 {
      RepeatedAt(s, k - 1, q - 1, j);
      assert q * |s| + j == |s| + ((q - 1) * |s| + j);
    }
  }

  /** Repeating m + n times is repeating m times followed by repeating n times. */
  lemma {:induction false} RepeatedAdd(s: String, m: nat, n: nat)
    ensures Repeated(s, m + n) == Repeated(s, m) + Repeated(s, n)
  {
    if m > 0 {
      RepeatedAdd(s, m - 1, n);
      calc {
        Repeated(s, m + n);
        s + Repeated(s, m - 1 + n);
        s + (Repeated(s, m - 1) + Repeated(s, n));
        (s + Repeated(s, m - 1)) + Repeated(s, n);
      }
    } else {
      assert Repeated(s, m) == [];
    }
  }

  /** Repeat: "" for a null or empty input or a count at or below zero; otherwise `count` copies. */
  function Repeat(str: Option<String>, count: int): (r: String)
    ensures IsNullOrEmpty(str) || count <= 0 ==> r == []
    ensures !IsNullOrEmpty(str) && count > 0 ==> |r| == count * |str.value|
  {
    if IsNullOrEmpty(str) then []
    else if count <= 0 then []
    else Repeated(str.value, count)
  }

  /** Every copy in Repeat's result is the input: position `q * |s| + j` holds `s[j]`. */
  lemma RepeatAt(s: String, count: int, q: nat, j: nat)
    requires q < count && j < |s|
    ensures q * |s| + j < |Repeat(Some(s), count)| && Repeat(Some(s), count)[q * |s| + j] == s[j]
  {
    RepeatedAt(s, count, q, j);
  }

  // ---------------------------------------------------------------- ToString (BuildString)

  /** `value ?? string.Empty` */
  function ValueOrEmpty(v: Option<String>): String {
    v.GetOr([])
  }

  /** Reference definition: the elements in order, a null element read as "". */
  function Concat(vs: seq<Option<String>>): String {
    if |vs| == 0 then [] else ValueOrEmpty(vs[0]) + Concat(vs[1..])
  }

  /** The capacity the source computes with Aggregate: a left fold adding element lengths. */
  function SumLengths(vs: seq<Option<String>>): nat {
    if |vs| == 0 then 0 else SumLengths(vs[..|vs| - 1]) + |ValueOrEmpty(vs[|vs| - 1])|
  }

  /** Concatenation distributes over joining the sequences. */
  lemma {:induction false} ConcatAppend(vs: seq<Option<String>>, ws: seq<Option<String>>)
    ensures Concat(vs + ws) == Concat(vs) + Concat(ws)
  {
    if |vs| > 0 {
      assert (vs + ws)[1..] == vs[1..] + ws;
      ConcatAppend(vs[1..], ws);
    } else {
      assert vs + ws == ws;
    }
  }

  /** The capacity sum is exactly the length of the concatenation. */
  lemma {:induction false} ConcatLength(vs: seq<Option<String>>)
    ensures |Concat(vs)| == SumLengths(vs)
  {
    if |vs| > 0 {
      var init, last := vs[..|vs| - 1], vs[|vs| - 1];
      assert vs == init + [last];
      ConcatAppend(init, [last]);
      ConcatLength(init);
    }
  }

  lemma {:induction false} SumLengthsMonotone(vs: seq<Option<String>>, i: nat)
    requires i <= |vs|
    ensures 0 <= SumLengths(vs[..i]) <= SumLengths(vs)
  {
    if i < |vs| {
      SumLengthsMonotone(vs[..|vs| - 1], i);
      assert vs[..|vs| - 1][..i] == vs[..i];
    } else {
      assert vs[..i] == vs;
    }
  }

  /**
   * ToString(IEnumerable<string?>) (called BuildString by the tests): "" for a null
   * sequence; otherwise the capacity is summed first, then every element is appended
   * to a builder of that capacity, which never has to grow.
   */
  method ToString(values: Option<seq<Option<String>>>) returns (r: String)
    ensures values.None? ==> r == []
    ensures values.Some? ==> r == Concat(values.value) && |r| == SumLengths(values.value)
  {
    if values.None? {
      return [];
    }
    var enumerable := values.value;

    var estimatedCapacity := 0;
    for i := 0 to |enumerable|
      invariant estimatedCapacity == SumLengths(enumerable[..i])
    {
      assert enumerable[..i + 1][..i] == enumerable[..i];
      estimatedCapacity := estimatedCapacity + |ValueOrEmpty(enumerable[i])|;
    }
    assert enumerable[..|enumerable|] == enumerable;

    var strBuilder: String := [];
    for i := 0 to |enumerable|
      invariant strBuilder == Concat(enumerable[..i])
      invariant |strBuilder| <= estimatedCapacity
    {
      assert enumerable[..i + 1] == enumerable[..i] + [enumerable[i]];
      ConcatAppend(enumerable[..i], [enumerable[i]]);
      ConcatLength(enumerable[..i + 1]);
      SumLengthsMonotone(enumerable, i + 1);
      strBuilder := strBuilder + ValueOrEmpty(enumerable[i]);
    }
    ConcatLength(enumerable);
    r := strBuilder;
  }

  /** The test scenario with a null element in the middle. */
  lemma ConcatSkipsNull()
    ensures Concat([Some("Hello"), None, Some("World")]) == "HelloWorld"
  {
  }

  // ---------------------------------------------------------------- IsValidEmail

  /** The text after the last '@'. */
  function Domain(email: String): (r: String)
    requires '@' in email
    ensures |r| < |email| && email[|email| - |r| - 1] == '@' && '@' !in r
    ensures email == email[..|email| - |r| - 1] + ['@'] + r
  {
    email[LastIndexOf(email, '@') + 1..]
  }

  /**
   * The domain rules, stated directly: no two dots in a row, no hyphen at either end,
   * and a dot followed by a last label of at least two characters.
   */
  predicate WellFormedDomain(d: String) {
    && |d| >= 3
    && (forall i :: 0 <= i < |d| - 1 ==> !(d[i] == '.' && d[i + 1] == '.'))
    && d[0] != '-' && d[|d| - 1] != '-'
    && '.' in d[..|d| - 2] && d[|d| - 2] != '.' && d[|d| - 1] != '.'
  }

  /** The hand-written checks on the (non-empty) domain, in the order the source runs them. */
  function DomainChecks(domain: String): bool {
    if Contains(domain, "..") then false
    else if EndsWith(domain, "-") then false
    else if StartsWith(domain, "-") then false
    else if !Contains(domain, ".") || IndexOf(domain, '.') == |domain| - 1 then false
    else
      var tld := domain[LastIndexOf(domain, '.') + 1..];
      if |tld| < 2 then false else true
  }

  lemma ContainsDoubleDot(d: String)
    ensures Contains(d, "..") <==> exists i :: 0 <= i < |d| - 1 && d[i] == '.' && d[i + 1] == '.'
  {
    forall i | 0 <= i < |d| - 1
      ensures OccursAt(d, "..", i) <==> d[i] == '.' && d[i + 1] == '.'
    {
      var piece := d[i..i + 2];
      assert piece[0] == d[i] && piece[1] == d[i + 1];
      assert piece == [piece[0], piece[1]];
    }
    if Contains(d, "..") {
      var i :| OccursAt(d, "..", i);
      assert d[i] == '.' && d[i + 1] == '.';
    }
  }

  lemma ContainsChar(d: String, c: char)
    ensures Contains(d, [c]) <==> c in d
  {
    forall i | 0 <= i < |d|
      ensures OccursAt(d, [c], i) <==> d[i] == c
    {
      var piece := d[i..i + 1];
      assert piece[0] == d[i];
      assert piece == [piece[0]];
    }
  }

  /** The ordered checks accept exactly the well-formed domains. */
  lemma DomainChecksAgree(d: String)
    ensures DomainChecks(d) == WellFormedDomain(d)
  {
    ContainsDoubleDot(d);
    ContainsChar(d, '.');
    assert EndsWith(d, "-") <==> |d| >= 1 && d[|d| - 1] == '-' by {
      if |d| >= 1 && d[|d| - 1] == '-' {
        assert d[|d| - 1..] == "-";
      }
    }
    assert StartsWith(d, "-") <==> |d| >= 1 && d[0] == '-' by {
      if |d| >= 1 && d[0] == '-' {
        assert d[..1] == "-";
      }
    }
    if '.' in d {
      var k := LastIndexOf(d, '.');
      if k <= |d| - 3 {
        assert d[k] == d[..|d| - 2][k];
      }
    }
  }

  /**
   * The test "the first dot is the last character" never decides the outcome: dropping
   * it from the ordered checks accepts exactly the same domains.
   */
  lemma DomainChecksFirstDotTestRedundant(d: String)
    ensures DomainChecks(d) ==
      (&& !Contains(d, "..") && !EndsWith(d, "-") && !StartsWith(d, "-") && Contains(d, ".")
       && |d[LastIndexOf(d, '.') + 1..]| >= 2)
  {
    ContainsChar(d, '.');
  }

  /**
   * IsValidEmail: false for null or white space, for no '@' or an '@' at the end, and for
   * a domain that fails the hand-written checks; otherwise the verdict of the platform's
   * mail-address parser, which is the parameter `mailAddressParses`.
   */
  function IsValidEmail(email: Option<String>, mailAddressParses: String -> bool): (r: bool)
    ensures r ==> email.Some? && '@' in email.value && mailAddressParses(email.value)
  {
    if IsNullOrWhiteSpace(email) then false
    else
      var e := email.value;
      var atIndex := LastIndexOf(e, '@');
      if atIndex == -1 || atIndex == |e| - 1 then false
      else
        var domain := e[atIndex + 1..];
        if DomainChecks(domain) then mailAddressParses(e) else false
  }

  /** IsValidEmail accepts exactly the non-blank addresses with a well-formed domain after the last '@' that the parser accepts. */
  lemma IsValidEmailSpec(email: Option<String>, mailAddressParses: String -> bool)
    ensures IsValidEmail(email, mailAddressParses) <==>
      && email.Some? && !IsNullOrWhiteSpace(email) && '@' in email.value
      && WellFormedDomain(Domain(email.value)) && mailAddressParses(email.value)
  {
    if email.Some? && '@' in email.value {
      DomainChecksAgree(Domain(email.value));
    }
  }

  /** Null, empty and white-space-only inputs are rejected whatever the parser says. */
  lemma IsValidEmailRejectsBlank(email: Option<String>, mailAddressParses: String -> bool)
    requires IsNullOrWhiteSpace(email)
    ensures !IsValidEmail(email, mailAddressParses)
  {
  }

  /** Without an '@', or with the last '@' at the very end, the address is rejected. */
  lemma IsValidEmailRejectsMissingDomain(e: String, mailAddressParses: String -> bool)
    requires '@' !in e || e[|e| - 1] == '@'
    ensures !IsValidEmail(Some(e), mailAddressParses)
  {
  }

  /** Each domain rule on its own is enough to reject the address. */
  lemma IsValidEmailRejectsBadDomain(e: String, mailAddressParses: String -> bool)
    requires '@' in e
    requires
      var d := Domain(e);
      || (exists i :: 0 <= i < |d| - 1 && d[i] == '.' && d[i + 1] == '.')
      || (|d| > 0 && (d[0] == '-' || d[|d| - 1] == '-'))
      || '.' !in d
      || (exists i :: |d| - 2 <= i < |d| && 0 <= i && d[i] == '.')
    ensures !IsValidEmail(Some(e), mailAddressParses)
  {
    IsValidEmailSpec(Some(e), mailAddressParses);
    WellFormedDomainHasDot(Domain(e));
  }

  lemma WellFormedDomainHasDot(d: String)
    ensures WellFormedDomain(d) ==> '.' in d
  {
  }

  /** The domain of `local@d` is `d` whenever `d` has no '@' of its own. */
  lemma DomainOfSplit(local: String, d: String)
    requires '@' !in d
    ensures '@' in local + "@" + d && Domain(local + "@" + d) == d
  {
    var e := local + "@" + d;
    assert e[|local|] == '@';
    var k := LastIndexOf(e, '@');
    assert k == |local|;
  }

  /** Splitting at the last '@': the verdict depends only on the domain rules and the parser. */
  lemma IsValidEmailSplit(local: String, d: String, mailAddressParses: String -> bool)
    requires '@' !in d
    ensures IsValidEmail(Some(local + "@" + d), mailAddressParses) ==
      (WellFormedDomain(d) && mailAddressParses(local + "@" + d))
  {
    var e := local + "@" + d;
    DomainOfSplit(local, d);
    IsValidEmailSpec(Some(e), mailAddressParses);
    assert !IsWhiteSpace(e[|local|]);
  }

  /**
   * The domains of the test suite's rejected addresses: whatever the local part and
   * whatever the parser says, an address ending in one of them is rejected.
   */
  lemma IsValidEmailRejectsTestDomains(local: String, d: String, mailAddressParses: String -> bool)
    requires d in {"domain..com", "subdomain..example.com", "domain", "domain.c",
                   "domain.com.", "domain.", "-domain.com", "domain.com-"}
    ensures !IsValidEmail(Some(local + "@" + d), mailAddressParses)
  {
    if d == "domain..com" {
      assert d[6] == '.' && d[7] == '.';
    } else if d == "subdomain..example.com" {
      assert d[9] == '.' && d[10] == '.';
    } else if d == "domain" {
      assert d[..4] == "doma";
    }
    IsValidEmailSplit(local, d, mailAddressParses);
  }

  /**
   * The domains of the test suite's accepted addresses pass the hand-written checks, so for
   * any local part the parser alone decides. With local part "user@domain" and domain
   * "domain.com" this covers the address with two '@': only the parser rejects it.
   */
  lemma IsValidEmailParserDecidesTestDomains(local: String, d: String, mailAddressParses: String -> bool)
    requires d in {"example.com", "subdomain.example.com", "example.co", "例子.公司", "domain.com",
                   "subdomain.example.superlongdomain.com"}
    ensures IsValidEmail(Some(local + "@" + d), mailAddressParses) == mailAddressParses(local + "@" + d)
  {
    if d == "subdomain.example.superlongdomain.com" {
      LongTestDomainWellFormed(d);
    } else {
      AcceptedTestDomainsWellFormed(d);
    }
    IsValidEmailSplit(local, d, mailAddressParses);
  }

  lemma AcceptedTestDomainsWellFormed(d: String)
    requires d in {"example.com", "subdomain.example.com", "example.co", "例子.公司", "domain.com"}
    ensures '@' !in d && WellFormedDomain(d)
  {
    if d == "example.com" {
      assert d[..|d| - 2][7] == '.';
    } else if d == "subdomain.example.com" {
      assert d[..|d| - 2][9] == '.';
    } else if d == "example.co" {
      assert d[..|d| - 2][7] == '.';
    } else if d == "例子.公司" {
      assert d[..|d| - 2][2] == '.';
    } else {
      assert d[..|d| - 2][6] == '.';
    }
  }

  lemma LongTestDomainWellFormed(d: String)
    requires d == "subdomain.example.superlongdomain.com"
    ensures '@' !in d && WellFormedDomain(d)
  {
    assert d[..|d| - 2][33] == '.';
  }

  // ---------------------------------------------------------------- ToBase64 / FromBase64

  /** The ArgumentException FromBase64 throws: its message and the offending parameter's name. */
  datatype ArgumentException = ArgumentException(message: String, paramName: String)

  /**
   * ToBase64: a null input is encoded as "". `encode` stands for UTF-8 encoding followed by
   * Convert.ToBase64String.
   */
  function ToBase64(str: Option<String>, encode: String -> String): (r: String)
    ensures str.None? ==> r == encode([])
    ensures str.Some? ==> r == encode(str.value)
  {
    encode(str.GetOr([]))
  }

  /**
   * FromBase64: "" for null, empty or white-space input; otherwise the decoded text, or an
   * ArgumentException when `decode` (Convert.FromBase64String followed by UTF-8 decoding)
   * reports a format error by returning None.
   */
  function FromBase64(base64String: Option<String>, decode: String -> Option<String>): (r: Result<String, ArgumentException>)
    ensures IsNullOrWhiteSpace(base64String) ==> r == Success([])
    ensures !IsNullOrWhiteSpace(base64String) && decode(base64String.value).Some? ==>
      r == Success(decode(base64String.value).value)
    ensures r.Failure? <==> !IsNullOrWhiteSpace(base64String) && decode(base64String.value).None?
    ensures r.Failure? ==> r.error.paramName == "base64String"
  {
    if IsNullOrWhiteSpace(base64String) then Success([])
    else
      match decode(base64String.value)
      case Some(text) => Success(text)
      case None => Failure(ArgumentException("Invalid Base64 string.", "base64String"))
  }

  /**
   * Decoding what was encoded gives the text back, provided the codec round-trips and
   * only the empty text encodes to a blank string.
   */
  lemma Base64RoundTrip(x: String, encode: String -> String, decode: String -> Option<String>)
    requires decode(encode(x)) == Some(x)
    requires IsNullOrWhiteSpace(Some(encode(x))) ==> x == []
    ensures FromBase64(Some(ToBase64(Some(x), encode)), decode) == Success(x)
  {
  }
}
