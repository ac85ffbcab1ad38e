/**
 * Character classes and the whitespace handling that the payment intake
 * (`re.sub(r"\s+", "", ...)`) and the callback parser (`int(...)`) rely on.
 */
module Text {

  /** Python's `str.isspace()`, which is also the set `\s` matches in a str pattern. */
  predicate IsSpace(c: char) {
    var n := c as int;
    (9 <= n <= 13) || (28 <= n <= 32) || n == 0x85 || n == 0xA0 || n == 0x1680
    || (0x2000 <= n <= 0x200A) || n == 0x2028 || n == 0x2029 || n == 0x202F
    || n == 0x205F || n == 0x3000
  }

  /** An ASCII decimal digit. */
  predicate IsDigit(c: char) {
    '0' <= c <= '9'
  }

  predicate AllDigits(s: string) {
    forall i :: 0 <= i < |s| ==> IsDigit(s[i])
  }

  predicate NoSpaces(s: string) {
    forall i :: 0 <= i < |s| ==> !IsSpace(s[i])
  }

  predicate AllSpaces(s: string) {
    forall i :: 0 <= i < |s| ==> IsSpace(s[i])
  }

  /** `re.sub(r"\s+", "", s)`: every run of whitespace is deleted. */
  function RemoveSpaces(s: string): (r: string)
    ensures NoSpaces(r)
    ensures |r| <= |s|
    ensures NoSpaces(s) ==> r == s
    ensures AllSpaces(s) ==> r == []
  {
    if s == [] then []
    else if IsSpace(s[0]) then RemoveSpaces(s[1..])
    else [s[0]] + RemoveSpaces(s[1..])
  }

  /** Removing whitespace works piece by piece: it distributes over concatenation. */
  lemma {:induction false} RemoveSpacesAppend(a: string, b: string)
    ensures RemoveSpaces(a + b) == RemoveSpaces(a) + RemoveSpaces(b)
    decreases |a|
  {
    if a != [] {
      assert (a + b)[0] == a[0];
      assert (a + b)[1..] == a[1..] + b;
      RemoveSpacesAppend(a[1..], b);
    } else {
      assert a + b == b;
    }
  }

  /** Every character that is not whitespace survives the removal. */
  lemma {:induction false} RemoveSpacesKeeps(s: string, c: char)
    requires c in s && !IsSpace(c)
    ensures c in RemoveSpaces(s)
    decreases |s|
  {
    if s[0] != c {
      assert c in s[1..];
      RemoveSpacesKeeps(s[1..], c);
    }
  }

  /** Whitespace before, after or around a string makes no difference once removed. */
  lemma PaddingIgnored(pre: string, s: string, post: string)
    requires AllSpaces(pre) && AllSpaces(post)
    ensures RemoveSpaces(pre + s + post) == RemoveSpaces(s)
  {
    RemoveSpacesAppend(pre + s, post);
    RemoveSpacesAppend(pre, s);
  }

  /**
   * The whitespace `int()` skips around its digits. Non-ASCII whitespace is
   * first turned into a space, but of the ASCII characters only tab, line
   * feed, vertical tab, form feed, carriage return and space are skipped:
   * the separators U+001C to U+001F, which `str.isspace()` accepts, are not.
   */
  predicate IntSpace(c: char) {
    IsSpace(c) && !(28 <= c as int <= 31)
  }

  predicate AllIntSpaces(s: string) {
    forall i :: 0 <= i < |s| ==> IntSpace(s[i])
  }

  /** Leading whitespace dropped, as `int()` skips it. */
  function TrimStart(s: string): (r: string)
    ensures |r| <= |s| && r == s[|s| - |r|..]
    ensures AllIntSpaces(s[..|s| - |r|])
    ensures r == [] || !IntSpace(r[0])
    decreases |s|
  {
    if s != [] && IntSpace(s[0]) then
      var r := TrimStart(s[1..]);
      assert s[..|s| - |r|] == [s[0]] + s[1..][..|s| - 1 - |r|];
      r
    else s
  }

  /** Trailing whitespace dropped, as `int()` skips it. */
  function TrimEnd(s: string): (r: string)
    ensures |r| <= |s| && r == s[..|r|]
    ensures AllIntSpaces(s[|r|..])
    ensures r == [] || !IntSpace(r[|r| - 1])
    decreases |s|
  {
    if s != [] && IntSpace(s[|s| - 1]) then
      var r := TrimEnd(s[..|s| - 1]);
      assert s[|r|..] == s[..|s| - 1][|r|..] + [s[|s| - 1]];
      r
    else s
  }

  /** Surrounding whitespace dropped, as `int()` does before reading its digits. */
  function Trim(s: string): string {
    TrimEnd(TrimStart(s))
  }

  /** Leading whitespace makes no difference to `TrimStart`. */
  lemma {:induction false} TrimStartSkips(pre: string, s: string)
    requires AllIntSpaces(pre)
    ensures TrimStart(pre + s) == TrimStart(s)
    decreases |pre|
  {
    if pre == [] {
      assert pre + s == s;
    } else {
      assert (pre + s)[0] == pre[0];
      assert (pre + s)[1..] == pre[1..] + s;
      TrimStartSkips(pre[1..], s);
    }
  }

  /** Trailing whitespace makes no difference to `TrimEnd`. */
  lemma {:induction false} TrimEndSkips(s: string, post: string)
    requires AllIntSpaces(post)
    ensures TrimEnd(s + post) == TrimEnd(s)
    decreases |post|
  {
    if post == [] {
      assert s + post == s;
    } else {
      var n := |post|;
      assert (s + post)[|s| + n - 1] == post[n - 1];
      assert (s + post)[..|s| + n - 1] == s + post[..n - 1];
      TrimEndSkips(s, post[..n - 1]);
    }
  }

  /**
   * Whitespace around a string that neither starts nor ends with whitespace
   * is exactly what `int()` strips: the string itself is what it reads.
   */
  lemma TrimPadded(pre: string, s: string, post: string)
    requires AllIntSpaces(pre) && AllIntSpaces(post)
    requires s == [] || (!IntSpace(s[0]) && !IntSpace(s[|s| - 1]))
    ensures Trim(pre + s + post) == s
  {
    assert pre + s + post == pre + (s + post);
    TrimStartSkips(pre, s + post);
    if s == [] {
      assert s + post == post;
      var r := TrimStart(post);
      assert AllIntSpaces(r);
      TrimEndSkips([], r);
      assert [] + r == r;
    } else {
      assert (s + post)[0] == s[0];
      TrimEndSkips(s, post);
    }
  }
}
