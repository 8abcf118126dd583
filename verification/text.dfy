/** Character and string helpers used by the denylist parser. Strings are
    sequences of Unicode scalar values, as Rust's `char`. */
module Text {

  /** Rust's `char::is_whitespace`: the Unicode White_Space property, which
      is what `str::trim` strips. */
  predicate IsWhitespace(c: char) {
    var n := c as int;
    || (0x09 <= n <= 0x0D) || n == 0x20 || n == 0x85 || n == 0xA0 || n == 0x1680
    || (0x2000 <= n <= 0x200A) || n == 0x2028 || n == 0x2029 || n == 0x202F
    || n == 0x205F || n == 0x3000
  }

  /** Rust's `char::is_ascii_alphanumeric`: `[0-9A-Za-z]`. */
  predicate IsAsciiAlphanumeric(c: char) {
    ('0' <= c <= '9') || ('A' <= c <= 'Z') || ('a' <= c <= 'z')
  }

  /** Drops leading whitespace. */
  function TrimStart(s: string): string {
    if s != [] && IsWhitespace(s[0]) then TrimStart(s[1..]) else s
  }

  /** Drops trailing whitespace. */
  function TrimEnd(s: string): string {
    if s != [] && IsWhitespace(s[|s| - 1]) then TrimEnd(s[..|s| - 1]) else s
  }

  /** Rust's `str::trim`: both ends at once. */
  function Trim(s: string): string {
    TrimEnd(TrimStart(s))
  }

  /** `r` is `s` with the whitespace `s[..a]` and `s[a + |r|..]` cut away. */
  predicate Surrounds(s: string, a: nat, r: string) {
    && a + |r| <= |s|
    && r == s[a..a + |r|]
    && (forall i | 0 <= i < a :: IsWhitespace(s[i]))
    && (forall i | a + |r| <= i < |s| :: IsWhitespace(s[i]))
  }

  /** The result of `TrimStart` is the suffix of `s` that starts at its
      first non-whitespace character. */
  lemma {:induction false} TrimStartMeaning(s: string)
    ensures |TrimStart(s)| <= |s|
    ensures TrimStart(s) == s[|s| - |TrimStart(s)|..]
    ensures forall i | 0 <= i < |s| - |TrimStart(s)| :: IsWhitespace(s[i])
    ensures TrimStart(s) == [] || !IsWhitespace(TrimStart(s)[0])
  {
    if s != [] && IsWhitespace(s[0]) {
      var t := s[1..];
      TrimStartMeaning(t);
      assert TrimStart(s) == TrimStart(t);
      forall i | 0 <= i < |s| - |TrimStart(s)|
        ensures IsWhitespace(s[i])
      {
        if i > 0 {
          assert s[i] == t[i - 1];
        }
      }
    }
  }

  /** The result of `TrimEnd` is the prefix of `s` that ends at its last
      non-whitespace character. */
  lemma {:induction false} TrimEndMeaning(s: string)
    ensures |TrimEnd(s)| <= |s|
    ensures TrimEnd(s) == s[..|TrimEnd(s)|]
    ensures forall i | |TrimEnd(s)| <= i < |s| :: IsWhitespace(s[i])
    ensures TrimEnd(s) == [] || !IsWhitespace(TrimEnd(s)[|TrimEnd(s)| - 1])
  {
    if s != [] && IsWhitespace(s[|s| - 1]) {
      var t := s[..|s| - 1];
      TrimEndMeaning(t);
      assert TrimEnd(s) == TrimEnd(t);
      forall i | |TrimEnd(s)| <= i < |s|
        ensures IsWhitespace(s[i])
      {
        if i < |t| {
          assert s[i] == t[i];
        }
      }
    }
  }

  /** `Trim` keeps the longest slice of `s` that neither starts nor ends
      with whitespace; everything it cuts away is whitespace. */
  lemma TrimMeaning(s: string)
    ensures Trim(s) == [] || (!IsWhitespace(Trim(s)[0]) && !IsWhitespace(Trim(s)[|Trim(s)| - 1]))
    ensures exists a: nat :: Surrounds(s, a, Trim(s))
  {
    var t := TrimStart(s);
    TrimStartMeaning(s);
    TrimEndMeaning(t);
    var r := TrimEnd(t);
    assert Surrounds(s, |s| - |t|, r);
  }

  /** `i` is the position of the first non-whitespace character of `s`. */
  predicate FirstVisible(s: string, i: int) {
    && 0 <= i < |s|
    && !IsWhitespace(s[i])
    && (forall k | 0 <= k < i :: IsWhitespace(s[k]))
  }

  /** What `Trim` leaves at the front: nothing when `s` is all whitespace,
      otherwise the first non-whitespace character of `s`. */
  lemma TrimFront(s: string)
    ensures Trim(s) == [] <==> forall k | 0 <= k < |s| :: IsWhitespace(s[k])
    ensures Trim(s) != [] ==> FirstVisible(s, |s| - |TrimStart(s)|)
    ensures forall i | FirstVisible(s, i) :: Trim(s) != [] && Trim(s)[0] == s[i]
  {
    var t := TrimStart(s);
    TrimStartMeaning(s);
    TrimEndMeaning(t);
    if t != [] {
      assert s[|s| - |t|] == t[0];
    }
  }

  /** Every character of `s` is whitespace. */
  predicate AllWhitespace(s: string) {
    forall k | 0 <= k < |s| :: IsWhitespace(s[k])
  }

  /** `Trim` undoes whitespace padding around text that neither starts nor
      ends with whitespace. */
  lemma {:induction false} TrimPadded(pre: string, x: string, post: string)
    requires AllWhitespace(pre) && AllWhitespace(post)
    requires x != [] && !IsWhitespace(x[0]) && !IsWhitespace(x[|x| - 1])
    ensures Trim(pre + x + post) == x
  {
    var s := pre + x + post;
    var t := TrimStart(s);
    TrimStartMeaning(s);
    assert s[|pre|] == x[0];
    assert t == x + post;
    var u := TrimEnd(t);
    TrimEndMeaning(t);
    assert t[|x| - 1] == x[|x| - 1];
    assert u == x;
  }

  /** The number of occurrences of `c` in `s` (Rust's `s.matches(c).count()`). */
  function Count(s: string, c: char): (n: nat)
    ensures n == 0 <==> c !in s
    ensures n <= |s|
  {
    if s == [] then 0 else (if s[0] == c then 1 else 0) + Count(s[1..], c)
  }

  /** Occurrences in a concatenation add up. */
  lemma {:induction false} CountAppend(a: string, b: string, c: char)
    ensures Count(a + b, c) == Count(a, c) + Count(b, c)
  {
    if a == [] {
      assert a + b == b;
    } else {
      assert (a + b)[1..] == a[1..] + b;
      CountAppend(a[1..], b, c);
    }
  }

  /** Rust's `s.rfind(c).unwrap()` on a string known to contain `c`: the
      position of the last occurrence. Positions are counted in characters,
      which slices `s` at the same place as Rust's byte offset would. */
  function LastIndexOf(s: string, c: char): (i: nat)
    requires c in s
    ensures i < |s| && s[i] == c
    ensures c !in s[i + 1..]
  {
    if s[|s| - 1] == c then |s| - 1 else LastIndexOf(s[..|s| - 1], c)
  }
}
