/** Text helpers over `string` (= `seq<char>`): the subset of Python's `str`
    behaviour the scraper relies on. Whitespace and case are ASCII-only. */
module Text {
  import opened Selection

  /** The ASCII characters Python's `str.strip()` removes: those for which `str.isspace` holds,
      namely the space, tab to carriage return, and the four separators 0x1C to 0x1F. */
  predicate IsSpace(c: char) {
    c == ' ' || '\t' <= c <= '\r' || '\U{1C}' <= c <= '\U{1F}'
  }

  /** Neither end of `s` is whitespace. */
  predicate Trimmed(s: string) {
    |s| == 0 || (!IsSpace(s[0]) && !IsSpace(s[|s| - 1]))
  }

  /** Every character of `t` is whitespace. */
  predicate AllSpace(t: string) {
    forall k :: 0 <= k < |t| ==> IsSpace(t[k])
  }

  /** The index of the first non-whitespace character at or after `i`, or `|s|`. */
  function SkipBlanks(s: string, i: nat): (n: nat)
    requires i <= |s|
    ensures i <= n <= |s|
    ensures forall k :: i <= k < n ==> IsSpace(s[k])
    ensures n < |s| ==> !IsSpace(s[n])
    decreases |s| - i
  {
    if i < |s| && IsSpace(s[i]) then SkipBlanks(s, i + 1) else i
  }

  /** The end of `s[lo..j]` once its trailing whitespace is dropped. */
  function TrimEnd(s: string, lo: nat, j: nat): (n: nat)
    requires lo <= j <= |s|
    ensures lo <= n <= j
    ensures forall k :: n <= k < j ==> IsSpace(s[k])
    ensures n > lo ==> !IsSpace(s[n - 1])
    decreases j
  {
    if j > lo && IsSpace(s[j - 1]) then TrimEnd(s, lo, j - 1) else j
  }

  /** `r` is what is left of `s` after removing a whitespace-only run of length `i`
      from the front and another from the back. */
  predicate SliceAfterBlanks(s: string, r: string, i: int) {
    && 0 <= i <= |s| - |r|
    && r == s[i..i + |r|]
    && AllSpace(s[..i])
    && AllSpace(s[i + |r|..])
  }

  /** Python's `s.strip()`: the result is trimmed and no longer than `s`. */
  function Strip(s: string): (r: string)
    ensures Trimmed(r) && |r| <= |s|
  {
    var i := SkipBlanks(s, 0);
    var j := TrimEnd(s, i, |s|);
    s[i..j]
  }

  /** What `s.strip()` removes is whitespace: the result is the slice of `s` that remains after
      cutting a whitespace-only run off each end. */
  lemma StripIsSlice(s: string)
    ensures exists i :: SliceAfterBlanks(s, Strip(s), i)
  {
    var i := SkipBlanks(s, 0);
    var j := TrimEnd(s, i, |s|);
    assert Strip(s) == s[i..j];
    assert AllSpace(s[..i]) by {
      forall k | 0 <= k < i ensures IsSpace(s[..i][k]) {
        assert s[..i][k] == s[k];
      }
    }
    assert AllSpace(s[j..]) by {
      forall k | 0 <= k < |s| - j ensures IsSpace(s[j..][k]) {
        assert s[j..][k] == s[j + k];
      }
    }
    assert SliceAfterBlanks(s, Strip(s), i);
  }

  /** Stripping a trimmed string leaves it as it is. */
  lemma StripTrimmed(s: string)
    requires Trimmed(s)
    ensures Strip(s) == s
  {
  }

  /** Python's `s.strip()` is idempotent. */
  lemma {:induction false} StripIdempotent(s: string)
    ensures Strip(Strip(s)) == Strip(s)
  {
    StripTrimmed(Strip(s));
  }

  /** True exactly when `s` is empty or all whitespace (Python's `not s.strip()`). */
  lemma {:induction false} StripEmptyIffBlank(s: string)
    ensures Strip(s) == [] <==> AllSpace(s)
  {
    var r := Strip(s);
    StripIsSlice(s);
    var i :| SliceAfterBlanks(s, r, i);
    if |r| > 0 {
      assert r[0] == s[i];
    } else {
      assert s == s[..i] + s[i..];
    }
  }

  /** A whitespace-only string holds no other character. */
  lemma NoneOutsideSpace(t: string, x: char)
    requires AllSpace(t) && !IsSpace(x)
    ensures multiset(t)[x] == 0
  {
    assert x !in t;
  }

  /** What `s.strip()` removes is whitespace only: every other character occurs in the result
      as often as in `s`. */
  lemma {:induction false} StripKeepsNonSpace(s: string, x: char)
    requires !IsSpace(x)
    ensures multiset(Strip(s))[x] == multiset(s)[x]
  {
    var r := Strip(s);
    StripIsSlice(s);
    var i :| SliceAfterBlanks(s, r, i);
    var front, back := s[..i], s[i + |r|..];
    assert s == front + r + back;
    assert multiset(s) == multiset(front) + multiset(r) + multiset(back);
    NoneOutsideSpace(front, x);
    NoneOutsideSpace(back, x);
  }

  /** ASCII lower-casing of one character. */
  function LowerChar(c: char): char {
    if 'A' <= c <= 'Z' then (c as int + 32) as char else c
  }

  /** Python's `s.lower()`, restricted to ASCII letters. */
  function Lower(s: string): (r: string)
    ensures |r| == |s|
    ensures forall k :: 0 <= k < |r| ==> !('A' <= r[k] <= 'Z')
    ensures forall k :: 0 <= k < |s| && !('A' <= s[k] <= 'Z') ==> r[k] == s[k]
    ensures forall k :: 0 <= k < |s| && 'A' <= s[k] <= 'Z' ==> r[k] as int == s[k] as int + ('a' as int - 'A' as int)
  {
    seq(|s|, k requires 0 <= k < |s| => LowerChar(s[k]))
  }

  /** Lower-casing twice is lower-casing once. */
  lemma LowerIdempotent(s: string)
    ensures Lower(Lower(s)) == Lower(s)
  {
  }

  /** `needle` occurs in `hay` starting at index `i`. */
  predicate OccursAt(hay: string, needle: string, i: int) {
    0 <= i <= |hay| - |needle| && hay[i..i + |needle|] == needle
  }

  /** Python's `needle in hay`. */
  function Contains(hay: string, needle: string): bool
    decreases |hay|
  {
    if |needle| > |hay| then false
    else if hay[..|needle|] == needle then true
    else Contains(hay[1..], needle)
  }

  /** `needle in hay` holds exactly when `needle` occurs as a contiguous slice of `hay`. */
  lemma {:induction false} ContainsIffOccurs(hay: string, needle: string)
    ensures Contains(hay, needle) <==> exists i :: OccursAt(hay, needle, i)
    decreases |hay|
  {
    if |needle| > |hay| {
    } else if hay[..|needle|] == needle {
      assert OccursAt(hay, needle, 0);
    } else {
      ContainsIffOccurs(hay[1..], needle);
      if Contains(hay[1..], needle) {
        var j :| OccursAt(hay[1..], needle, j);
        assert OccursAt(hay, needle, j + 1);
      }
      if exists i :: OccursAt(hay, needle, i) {
        var i :| OccursAt(hay, needle, i);
        assert i != 0;
        assert OccursAt(hay[1..], needle, i - 1);
      }
    }
  }

  /** Python's `s.replace(c, "")` for a one-character `c`: every `c` is gone, every other
      character keeps its multiplicity, and a string without `c` is returned as it is. */
  function RemoveChar(s: string, c: char): (r: string)
    ensures c !in r
    ensures |r| <= |s|
    ensures forall x :: x != c ==> multiset(r)[x] == multiset(s)[x]
    ensures c !in s ==> r == s
  {
    if |s| == 0 then s
    else
      var rest := RemoveChar(s[1..], c);
      assert s == [s[0]] + s[1..];
      if s[0] == c then rest else [s[0]] + rest
  }

  /** The test that drops exactly the character `c`. */
  function IsChar(c: char): char -> bool {
    x => x == c
  }

  /** `s.replace(c, "")` is the selection that drops every `c`, so the remaining characters
      keep their order (`Selection.KeptTracesBack`). */
  lemma {:induction false} RemoveCharIsKept(s: string, c: char)
    ensures RemoveChar(s, c) == Kept(s, IsChar(c))
  {
    if |s| > 0 {
      RemoveCharIsKept(s[1..], c);
    }
  }

  /** The number of occurrences of `c` in `s`. */
  function Count(s: string, c: char): nat {
    if |s| == 0 then 0 else (if s[0] == c then 1 else 0) + Count(s[1..], c)
  }

  lemma CountZero(s: string, c: char)
    ensures Count(s, c) == 0 <==> c !in s
  {
    if |s| > 0 {
      CountZero(s[1..], c);
      assert c in s <==> s[0] == c || c in s[1..];
    }
  }

  /** The concatenation of all pieces (`"".join(xs)`). */
  function Concat(xs: seq<string>): string {
    if |xs| == 0 then [] else xs[0] + Concat(xs[1..])
  }

  /** Joining trimmed pieces gives a trimmed string: empty pieces contribute nothing,
      so both ends come from non-blank pieces. */
  lemma {:induction false} ConcatTrimmed(xs: seq<string>)
    requires forall k :: 0 <= k < |xs| ==> Trimmed(xs[k])
    ensures Trimmed(Concat(xs))
  {
    if |xs| > 0 {
      var rest := Concat(xs[1..]);
      ConcatTrimmed(xs[1..]);
      var all := xs[0] + rest;
      assert Concat(xs) == all;
      if |xs[0]| > 0 {
        assert all[0] == xs[0][0];
        if |rest| > 0 {
          assert all[|all| - 1] == rest[|rest| - 1];
        } else {
          assert all[|all| - 1] == xs[0][|xs[0]| - 1];
        }
      } else {
        assert all == rest;
      }
    }
  }

  /** Python's `sep.join(xs)` for a one-character separator. */
  function Join(sep: char, xs: seq<string>): string {
    if |xs| == 0 then []
    else if |xs| == 1 then xs[0]
    else xs[0] + [sep] + Join(sep, xs[1..])
  }

  /** Python's `s.split(sep)` for a one-character separator: always at least one part,
      and one more part than there are separators. */
  function Split(s: string, sep: char): (parts: seq<string>)
    ensures |parts| == Count(s, sep) + 1
    ensures forall k :: 0 <= k < |parts| ==> sep !in parts[k]
  {
    if |s| == 0 then [[]]
    else
      var t := Split(s[1..], sep);
      if s[0] == sep then [[]] + t
      else [[s[0]] + t[0]] + t[1..]
  }

  /** Splitting a string that has no separator gives the string itself. */
  lemma {:induction false} SplitNoSep(s: string, sep: char)
    requires sep !in s
    ensures Split(s, sep) == [s]
  {
    if |s| > 0 {
      SplitNoSep(s[1..], sep);
      assert [s[0]] + s[1..] == s;
    }
  }

  /** Splitting `a + [sep] + b`, where `a` has no separator, peels `a` off as the first part. */
  lemma {:induction false} SplitFirst(a: string, sep: char, b: string)
    requires sep !in a
    ensures Split(a + [sep] + b, sep) == [a] + Split(b, sep)
  {
    if |a| == 0 {
      assert a + [sep] + b == [sep] + b;
      assert ([sep] + b)[1..] == b;
    } else {
      var s := a + [sep] + b;
      assert s[1..] == a[1..] + [sep] + b;
      SplitFirst(a[1..], sep, b);
      assert [a[0]] + a[1..] == a;
    }
  }

  /** Splitting undoes joining when no piece contains the separator. */
  lemma {:induction false} SplitJoin(xs: seq<string>, sep: char)
    requires |xs| >= 1
    requires forall k :: 0 <= k < |xs| ==> sep !in xs[k]
    ensures Split(Join(sep, xs), sep) == xs
  {
    if |xs| == 1 {
      SplitNoSep(xs[0], sep);
    } else {
      SplitJoin(xs[1..], sep);
      SplitFirst(xs[0], sep, Join(sep, xs[1..]));
      assert [xs[0]] + xs[1..] == xs;
    }
  }

  /** Joining undoes splitting, for every string. */
  lemma {:induction false} JoinSplit(s: string, sep: char)
    ensures Join(sep, Split(s, sep)) == s
  {
    if |s| > 0 {
      var t := Split(s[1..], sep);
      JoinSplit(s[1..], sep);
      if s[0] == sep {
        var parts := [[]] + t;
        assert Split(s, sep) == parts;
        assert parts[1..] == t;
        assert Join(sep, parts) == [] + [sep] + Join(sep, t);
        assert s == [sep] + s[1..];
      } else {
        assert Split(s, sep) == [[s[0]] + t[0]] + t[1..];
        JoinPrepend(sep, s[0], t);
        assert s == [s[0]] + s[1..];
      }
    }
  }

  /** Putting a character in front of the first piece puts it in front of the joined string. */
  lemma JoinPrepend(sep: char, c: char, t: seq<string>)
    requires |t| >= 1
    ensures Join(sep, [[c] + t[0]] + t[1..]) == [c] + Join(sep, t)
  {
    var parts := [[c] + t[0]] + t[1..];
    if |t| > 1 {
      assert parts[1..] == t[1..];
      assert Join(sep, parts) == ([c] + t[0]) + [sep] + Join(sep, t[1..]);
    }
  }

  /** The decimal digit for `d < 10`. */
  function DigitChar(d: nat): char
    requires d < 10
  {
    (48 + d) as char
  }

  /** Python's `str(n)` for a non-negative integer. */
  function Decimal(n: nat): (s: string)
    ensures |s| >= 1
    ensures forall k :: 0 <= k < |s| ==> '0' <= s[k] <= '9'
  {
    if n < 10 then [DigitChar(n)] else Decimal(n / 10) + [DigitChar(n % 10)]
  }

  /** Python's `int(s)` for a string of decimal digits. */
  function ParseDecimal(s: string): nat {
    if |s| == 0 then 0
    else 10 * ParseDecimal(s[..|s| - 1]) + (if '0' <= s[|s| - 1] <= '9' then s[|s| - 1] as int - 48 else 0)
  }

  /** Reading back a rendered number gives the number. */
  lemma {:induction false} DecimalRoundTrip(n: nat)
    ensures ParseDecimal(Decimal(n)) == n
  {
    if n >= 10 {
      DecimalRoundTrip(n / 10);
      var s := Decimal(n);
      assert s[..|s| - 1] == Decimal(n / 10);
    }
  }

  /** Different numbers render as different strings. */
  lemma DecimalInjective(m: nat, n: nat)
    requires Decimal(m) == Decimal(n)
    ensures m == n
  {
    DecimalRoundTrip(m);
    DecimalRoundTrip(n);
  }
}
