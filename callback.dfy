/**
 * The admin keyboard's callback data: `f"{action}_{user.id}"` when the
 * buttons are built, `data.split("_")` and `int(...)` when one is pressed.
 */
module Callback {
  import opened Wrappers
  import opened Text

  datatype Action = Approve | Reject

  /** The action word written into the callback data. */
  function ActionName(a: Action): string {
    match a
    case Approve => "approve"
    case Reject => "reject"
  }

  function DigitChar(d: nat): (c: char)
    requires d < 10
    ensures IsDigit(c)
  {
    ('0' as int + d) as char
  }

  function DigitValue(c: char): (d: nat)
    requires IsDigit(c)
    ensures d < 10 && DigitChar(d) == c
  {
    c as int - '0' as int
  }

  /** Decimal notation of a natural number, as `str(n)` writes it: no leading zeros. */
  function NatToString(n: nat): (s: string)
    ensures s != [] && AllDigits(s)
    ensures (s[0] == '0') <==> n == 0
    decreases n
  {
    if n < 10 then [DigitChar(n)] else NatToString(n / 10) + [DigitChar(n % 10)]
  }

  /** `str(i)` for an integer, with a leading minus sign when it is negative. */
  function IntToString(i: int): string {
    if i < 0 then "-" + NatToString(-i) else NatToString(i)
  }

  /** The value of a string of decimal digits, most significant first. */
  function DigitsValue(s: string): nat
    requires AllDigits(s)
    decreases |s|
  {
    if s == [] then 0 else DigitsValue(s[..|s| - 1]) * 10 + DigitValue(s[|s| - 1])
  }

  /** Reading back the decimal notation of a natural number gives the number. */
  lemma {:induction false} NatToStringRoundTrip(n: nat)
    ensures DigitsValue(NatToString(n)) == n
    decreases n
  {
    var s := NatToString(n);
    if n >= 10 {
      assert s[..|s| - 1] == NatToString(n / 10);
      NatToStringRoundTrip(n / 10);
    } else {
      assert s[..|s| - 1] == [];
    }
  }

  /**
   * `int(s)` in base 10: surrounding whitespace is ignored, then an optional
   * sign and at least one digit; anything else raises ValueError (None).
   */
  function ParseInt(s: string): (r: Option<int>)
    ensures r.Some? ==> Trim(s) != []
  {
    ParseSigned(Trim(s))
  }

  /** A sign followed by at least one digit, and nothing else. */
  predicate Signed(t: string) {
    |t| >= 2 && (t[0] == '-' || t[0] == '+') && AllDigits(t[1..])
  }

  /**
   * What `int()` reads once the whitespace is gone: an optional sign
   * followed by at least one digit, and nothing else.
   */
  function ParseSigned(t: string): (r: Option<int>)
    ensures r.Some? <==> (t != [] && AllDigits(t)) || Signed(t)
    ensures t != [] && AllDigits(t) ==> r == Some(DigitsValue(t))
    ensures Signed(t) && t[0] == '+' ==> r == Some(DigitsValue(t[1..]))
    ensures Signed(t) && t[0] == '-' ==> r == Some(-(DigitsValue(t[1..]) as int))
  {
    if t != [] && (t[0] == '-' || t[0] == '+') then
      var body := t[1..];
      if body != [] && AllDigits(body) then
        var magnitude: int := DigitsValue(body);
        Some(if t[0] == '-' then -magnitude else magnitude)
      else None
    else if t != [] && AllDigits(t) then Some(DigitsValue(t))
    else None
  }

  /** A digit is not whitespace, so decimal notation has nothing for `int()` to strip. */
  lemma DigitsUnpadded(digits: string)
    requires digits != [] && AllDigits(digits)
    ensures !IntSpace(digits[0]) && !IntSpace(digits[|digits| - 1])
  {
    assert IsDigit(digits[0]) && IsDigit(digits[|digits| - 1]);
  }

  /** Whitespace that `int()` skips around the number does not change what it reads. */
  lemma ParseIntPadded(pre: string, t: string, post: string)
    requires AllIntSpaces(pre) && AllIntSpaces(post)
    requires t == [] || (!IntSpace(t[0]) && !IntSpace(t[|t| - 1]))
    ensures ParseInt(pre + t + post) == ParseSigned(t)
  {
    TrimPadded(pre, t, post);
  }

  /**
   * `str.isspace()` accepts the information separators U+001C to U+001F but
   * `int()` does not skip them: `int("\x1c5")` raises, so such a button is unreadable.
   */
  lemma SeparatorNotSkipped()
    ensures IsSpace(28 as char) && !IntSpace(28 as char)
    ensures ParseInt([28 as char, '5']) == None
    ensures Parse("approve_" + [28 as char, '5']) == None
  {
    var s := [28 as char, '5'];
    assert TrimStart(s) == s && TrimEnd(s) == s;
    assert !IsDigit(s[0]) && !Signed(s);
    assert "approve_" + s == Join(["approve", s], '_');
    SplitJoin(["approve", s], '_');
  }

  /** `str(i)` is what `int()` reads once the whitespace is gone, and has none around it. */
  lemma SignedRoundTrip(i: int)
    ensures var s := IntToString(i);
      && s != [] && !IntSpace(s[0]) && !IntSpace(s[|s| - 1])
      && ParseSigned(s) == Some(i)
  {
    var magnitude: nat := if i < 0 then -i else i;
    var digits := NatToString(magnitude);
    NatToStringRoundTrip(magnitude);
    DigitsUnpadded(digits);
    var s := IntToString(i);
    if i < 0 {
      assert s == "-" + digits && s[1..] == digits;
      assert s[|s| - 1] == digits[|digits| - 1];
      assert Signed(s) && s[0] == '-';
    } else {
      assert s == digits;
    }
  }

  /** `int(str(i)) == i` for every integer, negative ones included. */
  lemma IntToStringRoundTrip(i: int)
    ensures ParseInt(IntToString(i)) == Some(i)
  {
    var s := IntToString(i);
    SignedRoundTrip(i);
    assert [] + s + [] == s;
    TrimPadded([], s, []);
    assert Trim(s) == s;
  }

  /** Occurrences of `c` in `s`. */
  function Count(s: string, c: char): nat
    decreases |s|
  {
    if s == [] then 0 else (if s[0] == c then 1 else 0) + Count(s[1..], c)
  }

  /** `s.split(sep)`: the pieces between the separators, of which there is always at least one. */
  function Split(s: string, sep: char): (r: seq<string>)
    ensures |r| == Count(s, sep) + 1
    ensures forall i :: 0 <= i < |r| ==> sep !in r[i]
    decreases |s|
  {
    if s == [] then [""]
    else
      var rest := Split(s[1..], sep);
      if s[0] == sep then [""] + rest
      else [[s[0]] + rest[0]] + rest[1..]
  }

  /** `sep.join(parts)`. */
  function Join(parts: seq<string>, sep: char): string
    requires |parts| >= 1
    decreases |parts|
  {
    if |parts| == 1 then parts[0] else parts[0] + [sep] + Join(parts[1..], sep)
  }

  /** Joining the pieces of a split gives back the original string. */
  lemma {:induction false} JoinSplit(s: string, sep: char)
    ensures Join(Split(s, sep), sep) == s
    decreases |s|
  {
    if s != [] {
      var rest := Split(s[1..], sep);
      JoinSplit(s[1..], sep);
      var r := Split(s, sep);
      if s[0] == sep {
        assert r[1..] == rest;
      } else {
        assert r[0] == [s[0]] + rest[0] && r[1..] == rest[1..];
        if |rest| > 1 {
          assert rest[1..] == rest[1..][0..];
        }
      }
    }
  }

  /** A prefix without separators joins the first piece of whatever follows it. */
  lemma {:induction false} SplitPrefix(a: string, rest: string, sep: char)
    requires sep !in a
    ensures Split(a + rest, sep) == [a + Split(rest, sep)[0]] + Split(rest, sep)[1..]
    decreases |a|
  {
    if a == [] {
      var r := Split(rest, sep);
      assert a + rest == rest && a + r[0] == r[0];
      assert r == [r[0]] + r[1..];
    } else {
      var r := Split(rest, sep);
      assert (a + rest)[0] == a[0] && a[0] != sep;
      assert (a + rest)[1..] == a[1..] + rest;
      SplitPrefix(a[1..], rest, sep);
      var inner := Split(a[1..] + rest, sep);
      assert inner == [a[1..] + r[0]] + r[1..];
      assert Split(a + rest, sep) == [[a[0]] + inner[0]] + inner[1..];
      assert [a[0]] + (a[1..] + r[0]) == a + r[0];
    }
  }

  /** Splitting what was joined from separator-free pieces gives back the pieces. */
  lemma {:induction false} SplitJoin(parts: seq<string>, sep: char)
    requires |parts| >= 1
    requires forall i :: 0 <= i < |parts| ==> sep !in parts[i]
    ensures Split(Join(parts, sep), sep) == parts
    decreases |parts|
  {
    if |parts| == 1 {
      SplitPrefix(parts[0], "", sep);
      assert parts[0] + "" == parts[0];
    } else {
      var tail := Join(parts[1..], sep);
      SplitJoin(parts[1..], sep);
      assert parts[0] + [sep] + tail == parts[0] + ([sep] + tail);
      SplitPrefix(parts[0], [sep] + tail, sep);
      assert ([sep] + tail)[0] == sep && ([sep] + tail)[1..] == tail;
      var r := Split([sep] + tail, sep);
      assert r == [""] + parts[1..];
      assert r[0] == "" && r[1..] == parts[1..];
      assert parts[0] + "" == parts[0];
      assert parts == [parts[0]] + parts[1..];
    }
  }

  /** The data carried by a button, as the handler unpacks it. */
  datatype Press = Press(action: string, userId: int)

  /** Callback data `f"{action}_{user_id}"` for one of the two admin buttons. */
  function Format(a: Action, userId: int): string {
    ActionName(a) + "_" + IntToString(userId)
  }

  /**
   * `action, user_id = data.split("_")` followed by `int(user_id)`. Both
   * the unpacking (not exactly two pieces) and `int` can raise: None.
   */
  function Parse(data: string): (r: Option<Press>)
    ensures r.Some? ==> Count(data, '_') == 1 && '_' !in r.value.action
  {
    var parts := Split(data, '_');
    if |parts| != 2 then None
    else
      match ParseInt(parts[1])
      case None => None
      case Some(id) => Some(Press(parts[0], id))
  }

  /** Pressing a button built for a user hands back that button's action and that user's id. */
  lemma FormatParseRoundTrip(a: Action, userId: int)
    ensures Parse(Format(a, userId)) == Some(Press(ActionName(a), userId))
  {
    var name, id := ActionName(a), IntToString(userId);
    assert '_' !in id by {
      var digits := NatToString(if userId < 0 then -userId else userId);
      assert forall i :: 0 <= i < |digits| ==> digits[i] != '_';
    }
    assert Format(a, userId) == Join([name, id], '_');
    SplitJoin([name, id], '_');
    IntToStringRoundTrip(userId);
  }

  /** Only the Approve button carries the word the handler acts on. */
  lemma OnlyApproveApproves(a: Action, userId: int)
    ensures Parse(Format(a, userId)).Some?
    ensures Parse(Format(a, userId)).value.action == "approve" <==> a == Approve
  {
    FormatParseRoundTrip(a, userId);
  }
}
