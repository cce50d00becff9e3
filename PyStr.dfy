/**
  The few Python string operations the script relies on: `strip`, `split`,
  `replace(c, '')`, `int()` in base 10 and `str()` of an integer.
*/
module PyStr {
  import opened Wrappers

  /** The characters Python 2's `str.strip()` removes when given no argument. */
  const Whitespace: set<char> := {' ', '\t', '\n', '\r', '\U{000B}', '\U{000C}'}

  /** `s` neither starts nor ends with a character of `cs`. */
  predicate StrippedOf(s: string, cs: set<char>) {
    s == [] || (s[0] !in cs && s[|s| - 1] !in cs)
  }

  /** The first index at or after `i` whose character is not in `cs`, or `|s|`. */
  function SkipLeft(s: string, cs: set<char>, i: nat): (j: nat)
    requires i <= |s|
    ensures i <= j <= |s|
    ensures forall k :: i <= k < j ==> s[k] in cs
    ensures j == |s| || s[j] !in cs
    decreases |s| - i
  {
    if i < |s| && s[i] in cs then SkipLeft(s, cs, i + 1) else i
  }

  /** The index just past the last character of `s[lo..j]` not in `cs`, or `lo`. */
  function SkipRight(s: string, cs: set<char>, lo: nat, j: nat): (e: nat)
    requires lo <= j <= |s|
    ensures lo <= e <= j
    ensures forall k :: e <= k < j ==> s[k] in cs
    ensures e == lo || s[e - 1] !in cs
  {
    if j > lo && s[j - 1] in cs then SkipRight(s, cs, lo, j - 1) else j
  }

  /** Python's `s.strip(cs)`: the longest middle part of `s` whose ends are not in `cs`. */
  function StripChars(s: string, cs: set<char>): (r: string)
    ensures StrippedOf(r, cs)
    ensures StripAt(r, s, cs, SkipLeft(s, cs, 0))
  {
    var i := SkipLeft(s, cs, 0);
    s[i..SkipRight(s, cs, i, |s|)]
  }

  /** Python's `s.strip()`. */
  function Strip(s: string): string {
    StripChars(s, Whitespace)
  }

  /** Every character of `StripChars(s, cs)` is a character of `s`. */
  lemma StripCharsFrom(s: string, cs: set<char>, c: char)
    requires c in StripChars(s, cs)
    ensures c in s
  {
    var r := StripChars(s, cs);
    var i := SkipLeft(s, cs, 0);
    var k :| 0 <= k < |r| && r[k] == c;
    assert s[i + k] == c;
  }

  /** Stripping a string that is already stripped leaves it as it is. */
  lemma StripCharsNoop(s: string, cs: set<char>)
    requires StrippedOf(s, cs)
    ensures StripChars(s, cs) == s
  {
  }

  /** `r` is `s[i..i + |r|]`, its ends are not in `cs`, and everything of `s` outside it is in `cs`. */
  predicate StripAt(r: string, s: string, cs: set<char>, i: nat) {
    StrippedOf(r, cs) && i + |r| <= |s| && r == s[i..i + |r|]
    && (forall k :: 0 <= k < i ==> s[k] in cs)
    && (forall k :: i + |r| <= k < |s| ==> s[k] in cs)
  }

  /** `r` is what remains of `s` once the characters of `cs` are cut off both of its ends. */
  ghost predicate IsStripOf(r: string, s: string, cs: set<char>) {
    exists i: nat :: StripAt(r, s, cs, i)
  }

  lemma StripCharsIsStrip(s: string, cs: set<char>)
    ensures IsStripOf(StripChars(s, cs), s, cs)
  {
    assert StripAt(StripChars(s, cs), s, cs, SkipLeft(s, cs, 0));
  }

  /** There is only one way to strip a string, so `IsStripOf` fully characterises `StripChars`. */
  lemma StripUnique(r: string, s: string, cs: set<char>)
    requires IsStripOf(r, s, cs)
    ensures r == StripChars(s, cs)
  {
    var i: nat :| StripAt(r, s, cs, i);
    var r' := StripChars(s, cs);
    var j := SkipLeft(s, cs, 0);
    assert StripAt(r', s, cs, j);
    if r == [] {
      assert forall k :: 0 <= k < |s| ==> s[k] in cs;
    } else {
      assert s[i] == r[0] && s[i] !in cs;
      assert i == j;
      assert r' != [];
      var e, e' := i + |r| - 1, j + |r'| - 1;
      assert s[e] == r[|r| - 1] && s[e'] == r'[|r'| - 1];
      assert e == e';
    }
  }

  /** Python's `s.split(c)` for a one-character separator: never empty, and no part holds `c`. */
  function Split(s: string, c: char): (parts: seq<string>)
    ensures |parts| >= 1
    ensures forall i :: 0 <= i < |parts| ==> c !in parts[i]
  {
    if |s| == 0 then [""]
    else
      var rest := Split(s[1..], c);
      if s[0] == c then [""] + rest else [[s[0]] + rest[0]] + rest[1..]
  }

  /** Python's `c.join(parts)`. */
  function Join(parts: seq<string>, c: char): string {
    if |parts| == 0 then ""
    else if |parts| == 1 then parts[0]
    else parts[0] + [c] + Join(parts[1..], c)
  }

  /** Splitting and joining back on the same separator gives the original string. */
  lemma {:induction false} JoinSplit(s: string, c: char)
    ensures Join(Split(s, c), c) == s
  {
    if |s| > 0 {
      var rest := Split(s[1..], c);
      JoinSplit(s[1..], c);
      if s[0] == c {
        assert Split(s, c) == [""] + rest;
        assert Split(s, c)[1..] == rest;
      } else {
        var parts := Split(s, c);
        assert parts == [[s[0]] + rest[0]] + rest[1..];
        if |rest| == 1 {
          assert parts == [[s[0]] + rest[0]];
        } else {
          assert parts[1..] == rest[1..];
          assert Join(rest, c) == rest[0] + [c] + Join(rest[1..], c);
        }
      }
    }
  }

  lemma {:induction false} SplitNoSeparator(s: string, c: char)
    requires c !in s
    ensures Split(s, c) == [s]
  {
    if |s| > 0 {
      assert c !in s[1..] by {
        forall k | 0 <= k < |s[1..]| ensures s[1..][k] != c {
          assert s[1..][k] == s[k + 1];
        }
      }
      SplitNoSeparator(s[1..], c);
      assert [s[0]] + s[1..] == s;
    }
  }

  lemma {:induction false} SplitPrefix(p: string, t: string, c: char)
    requires c !in p
    ensures Split(p + t, c) == [p + Split(t, c)[0]] + Split(t, c)[1..]
  {
    if |p| > 0 {
      assert c !in p[1..] by {
        forall k | 0 <= k < |p[1..]| ensures p[1..][k] != c {
          assert p[1..][k] == p[k + 1];
        }
      }
      SplitPrefix(p[1..], t, c);
      assert (p + t)[1..] == p[1..] + t;
      assert [p[0]] + (p[1..] + Split(t, c)[0]) == p + Split(t, c)[0];
    } else {
      var parts := Split(t, c);
      assert p + t == t;
      assert p + parts[0] == parts[0];
      assert parts == [parts[0]] + parts[1..];
    }
  }

  /** Joining parts that do not hold the separator and splitting again gives the parts back. */
  lemma {:induction false} SplitJoin(parts: seq<string>, c: char)
    requires |parts| >= 1
    requires forall i :: 0 <= i < |parts| ==> c !in parts[i]
    ensures Split(Join(parts, c), c) == parts
  {
    if |parts| == 1 {
      SplitNoSeparator(parts[0], c);
    } else {
      var tail := Join(parts[1..], c);
      SplitJoin(parts[1..], c);
      SplitPrefix(parts[0], [c] + tail, c);
      assert parts[0] + [c] + tail == parts[0] + ([c] + tail);
      assert Split([c] + tail, c) == [""] + parts[1..] by {
        assert ([c] + tail)[1..] == tail;
      }
      assert ([""] + parts[1..])[1..] == parts[1..];
      assert parts[0] + "" == parts[0];
      assert parts == [parts[0]] + parts[1..];
    }
  }

  /** Splitting "x<c>y" on `c`, when neither part holds `c`, gives the two parts. */
  lemma SplitTwo(x: string, y: string, c: char)
    requires c !in x && c !in y
    ensures Split(x + [c] + y, c) == [x, y]
  {
    assert Join([x, y], c) == x + [c] + y;
    SplitJoin([x, y], c);
  }

  /** The last part of a split is a suffix of the string, preceded by the separator unless it is the whole string. */
  lemma {:induction false} SplitLastSuffix(s: string, c: char)
    ensures exists pre :: s == pre + LastPart(s, c) && (pre == [] || pre[|pre| - 1] == c)
  {
    var parts := Split(s, c);
    var last := parts[|parts| - 1];
    assert LastPart(s, c) == last;
    JoinSplit(s, c);
    if |parts| == 1 {
      var pre: string := [];
      assert s == pre + last;
    } else {
      JoinLast(parts, c);
      var pre := Join(parts[..|parts| - 1], c) + [c];
      assert s == pre + last;
    }
  }

  /** Python's `s.split(c)[-1]`. */
  function LastPart(s: string, c: char): (r: string)
    ensures c !in r
  {
    var parts := Split(s, c);
    parts[|parts| - 1]
  }

  lemma {:induction false} JoinLast(parts: seq<string>, c: char)
    requires |parts| >= 2
    ensures Join(parts, c) == Join(parts[..|parts| - 1], c) + [c] + parts[|parts| - 1]
  {
    if |parts| > 2 {
      JoinLast(parts[1..], c);
      assert parts[1..][..|parts[1..]| - 1] == parts[..|parts| - 1][1..];
      assert parts[1..][|parts[1..]| - 1] == parts[|parts| - 1];
    } else {
      assert parts[..1] == [parts[0]];
    }
  }

  /** Python's `s.replace(c, '')`. */
  function RemoveChar(s: string, c: char): (r: string)
    ensures c !in r
    ensures c !in s ==> r == s
    ensures multiset(r) == multiset(s)[c := 0]
  {
    if |s| == 0 then ""
    else
      assert s == [s[0]] + s[1..];
      (if s[0] == c then "" else [s[0]]) + RemoveChar(s[1..], c)
  }

  /** Removal works character by character, in order: it distributes over concatenation. */
  lemma {:induction false} RemoveCharAppend(a: string, b: string, c: char)
    ensures RemoveChar(a + b, c) == RemoveChar(a, c) + RemoveChar(b, c)
  {
    if |a| > 0 {
      var x, rest := a[0], a[1..];
      ConsSplit(a, b);
      var head := if x == c then "" else [x];
      RemoveCharCons(x, rest, c);
      RemoveCharCons(x, rest + b, c);
      RemoveCharAppend(rest, b, c);
      var p, q := RemoveChar(rest, c), RemoveChar(b, c);
      assert head + (p + q) == (head + p) + q;
    } else {
      assert a + b == b;
    }
  }

  /** A non-empty sequence is its head followed by its tail, also in front of another sequence. */
  lemma ConsSplit<T>(a: seq<T>, b: seq<T>)
    requires |a| > 0
    ensures a == [a[0]] + a[1..] && a + b == [a[0]] + (a[1..] + b)
  {
  }

  lemma RemoveCharCons(x: char, s: string, c: char)
    ensures RemoveChar([x] + s, c) == (if x == c then "" else [x]) + RemoveChar(s, c)
  {
    assert ([x] + s)[0] == x && ([x] + s)[1..] == s;
  }


  predicate IsDigit(ch: char) {
    '0' <= ch <= '9'
  }

  predicate AllDigits(d: string) {
    forall i :: 0 <= i < |d| ==> IsDigit(d[i])
  }

  /** The value of a string of decimal digits, most significant first. */
  function DecimalValue(d: string): nat
    requires AllDigits(d)
  {
    if |d| == 0 then 0
    else DecimalValue(d[..|d| - 1]) * 10 + (d[|d| - 1] as int - '0' as int)
  }

  /**
    Python 2's `int(s)` in base 10: surrounding whitespace, an optional sign,
    whitespace again after a sign, then at least one digit.
  */
  function ParseInt(s: string): Option<int> {
    ReadInt(Strip(s))
  }

  /** The reading of an already stripped string: an optional sign, then the unsigned reading of the rest. */
  function ReadInt(t: string): Option<int> {
    if |t| > 0 && (t[0] == '+' || t[0] == '-') then
      match ReadUnsigned(t[1..])
      case Some(n) => Some(if t[0] == '-' then -n else n)
      case None => None
    else ReadUnsigned(t)
  }

  /** The unsigned reading: leading whitespace is skipped, then everything left must be a digit. */
  function ReadUnsigned(u: string): Option<int> {
    if |u| > 0 && u[0] in Whitespace then ReadUnsigned(u[1..])
    else if |u| > 0 && AllDigits(u) then Some(DecimalValue(u))
    else None
  }

  predicate HasDigit(s: string) {
    exists i :: 0 <= i < |s| && IsDigit(s[i])
  }

  predicate Blanks(ws: string) {
    forall i :: 0 <= i < |ws| ==> ws[i] in Whitespace
  }

  /**
    The literals `int()` accepts, once stripped: `t` is a sign (or none),
    whitespace (only after a sign), then a non-empty run of digits `d`.
  */
  predicate IntLiteral(t: string, sign: string, ws: string, d: string) {
    && t == sign + ws + d
    && (sign == "" || sign == "+" || sign == "-")
    && (sign == "" ==> ws == "")
    && Blanks(ws)
    && |d| > 0 && AllDigits(d)
  }

  /** The value of a literal: its digits, negated after a minus sign. */
  function SignedValue(sign: string, d: string): int
    requires AllDigits(d)
  {
    if sign == "-" then -(DecimalValue(d) as int) else DecimalValue(d)
  }

  /** A digit is not whitespace. */
  lemma DigitNotWhitespace(c: char)
    requires IsDigit(c)
    ensures c !in Whitespace
  {
  }

  /** The unsigned reading skips any whitespace before the digits. */
  lemma {:induction false} ReadUnsignedSkips(ws: string, d: string)
    requires Blanks(ws) && |d| > 0 && AllDigits(d)
    ensures ReadUnsigned(ws + d) == Some(DecimalValue(d))
    decreases |ws|
  {
    if |ws| == 0 {
      assert ws + d == d;
      DigitNotWhitespace(d[0]);
    } else {
      assert (ws + d)[0] == ws[0];
      assert (ws + d)[1..] == ws[1..] + d;
      ReadUnsignedSkips(ws[1..], d);
    }
  }

  /** What the unsigned reading accepts: whitespace, then digits, read to their value. */
  lemma {:induction false} ReadUnsignedIsLiteral(u: string) returns (ws: string, d: string)
    requires ReadUnsigned(u).Some?
    ensures u == ws + d && Blanks(ws) && |d| > 0 && AllDigits(d)
    ensures ReadUnsigned(u) == Some(DecimalValue(d))
    decreases |u|
  {
    if |u| > 0 && u[0] in Whitespace {
      var ws', d' := ReadUnsignedIsLiteral(u[1..]);
      ws, d := [u[0]] + ws', d';
      assert u == [u[0]] + u[1..];
    } else {
      ws, d := "", u;
    }
  }

  /** `int()` reads every literal, to its signed value. */
  lemma ReadIntLiteral(t: string, sign: string, ws: string, d: string)
    requires IntLiteral(t, sign, ws, d)
    ensures ReadInt(t) == Some(SignedValue(sign, d))
  {
    DigitNotWhitespace(d[0]);
    if sign == "" {
      assert t == d;
    } else {
      assert t[0] == sign[0];
      assert t[1..] == ws + d;
      ReadUnsignedSkips(ws, d);
    }
  }

  /** `int()` reads nothing but literals. */
  lemma ReadIntIsLiteral(t: string)
    requires StrippedOf(t, Whitespace) && ReadInt(t).Some?
    ensures exists sign, ws, d :: IntLiteral(t, sign, ws, d)
  {
    if |t| > 0 && (t[0] == '+' || t[0] == '-') {
      var ws, d := ReadUnsignedIsLiteral(t[1..]);
      assert t == t[..1] + ws + d;
      assert IntLiteral(t, t[..1], ws, d);
    } else {
      assert t == "" + "" + t;
      assert IntLiteral(t, "", "", t);
    }
  }

  /** `int(s)` succeeds exactly on the strings that are a literal once stripped, and reads the literal's value. */
  lemma ParseIntIff(s: string)
    ensures ParseInt(s).Some? <==> exists sign, ws, d :: IntLiteral(Strip(s), sign, ws, d)
    ensures forall sign, ws, d :: IntLiteral(Strip(s), sign, ws, d) ==> ParseInt(s) == Some(SignedValue(sign, d))
  {
    if ParseInt(s).Some? {
      ReadIntIsLiteral(Strip(s));
    }
    forall sign, ws, d | IntLiteral(Strip(s), sign, ws, d)
      ensures ParseInt(s) == Some(SignedValue(sign, d))
    {
      ReadIntLiteral(Strip(s), sign, ws, d);
    }
  }

  /** `int(s)` fails on a string without a digit, such as `"foo"`. */
  lemma ParseIntNeedsDigit(s: string)
    requires ParseInt(s).Some?
    ensures HasDigit(s)
  {
    var t := Strip(s);
    ReadIntIsLiteral(t);
    var sign, ws, d :| IntLiteral(t, sign, ws, d);
    assert t[|sign| + |ws|] == d[0];
    StripCharsFrom(s, Whitespace, d[0]);
  }

  /** The contrapositive, as the page count uses it: no digit, no number. */
  lemma ParseIntNoDigit(s: string)
    requires !HasDigit(s)
    ensures ParseInt(s) == None
  {
    if ParseInt(s).Some? {
      ParseIntNeedsDigit(s);
    }
  }

  function DigitChar(n: nat): (ch: char)
    requires n < 10
    ensures IsDigit(ch) && ch as int - '0' as int == n
  {
    ('0' as int + n) as char
  }

  /** `str(n)` for a natural number: its decimal digits, which read back to `n`. */
  function NatToString(n: nat): (r: string)
    ensures |r| > 0 && AllDigits(r) && DecimalValue(r) == n
  {
    if n < 10 then [DigitChar(n)]
    else
      var r := NatToString(n / 10) + [DigitChar(n % 10)];
      assert r[..|r| - 1] == NatToString(n / 10);
      r
  }

  /** `str(n)` has no leading zero: it starts with `0` only for zero itself. */
  lemma {:induction false} NatToStringLeadingDigit(n: nat)
    ensures NatToString(n)[0] == '0' <==> n == 0
  {
    if n >= 10 {
      NatToStringLeadingDigit(n / 10);
      assert NatToString(n)[0] == NatToString(n / 10)[0];
    }
  }

  /** Python's `str(n)` for an integer. */
  function IntToString(n: int): string {
    if n < 0 then "-" + NatToString(-n) else NatToString(n)
  }

  /** `int(str(n)) == n`. */
  lemma ParseIntToString(n: int)
    ensures ParseInt(IntToString(n)) == Some(n)
  {
    var s := IntToString(n);
    var d := if n < 0 then NatToString(-n) else NatToString(n);
    assert s[|s| - 1] == d[|d| - 1];
    StripCharsNoop(s, Whitespace);
    assert Strip(s) == s;
    if n < 0 {
      assert s == "-" + "" + d;
      ReadIntLiteral(s, "-", "", d);
    } else {
      assert s == "" + "" + d;
      ReadIntLiteral(s, "", "", d);
    }
  }
}
