/** The string primitives the scraper relies on, with Python's meaning:
    the substring test `sub in s`, `str.strip()` without arguments, and
    `str(n)` for an integer `n`. */
module Text {
  import opened Wrappers

  // ---------------------------------------------------------------------
  // Substring test
  // ---------------------------------------------------------------------

  /** `sub` occurs in `s` as a contiguous window (the meaning of `sub in s`). */
  ghost predicate Occurs(sub: string, s: string) {
    exists i :: OccursAt(sub, s, i)
  }

  /** `sub` occurs in `s` starting at position `i`. */
  ghost predicate OccursAt(sub: string, s: string, i: int) {
    0 <= i <= |s| - |sub| && s[i..i + |sub|] == sub
  }

  /** Python's `sub in s`, computed by trying every start position. */
  predicate Contains(s: string, sub: string)
    decreases |s|
  {
    if |s| < |sub| then false
    else s[..|sub|] == sub || Contains(s[1..], sub)
  }

  /** The computed test agrees with the window definition, both ways. */
  lemma {:induction false} ContainsIffOccurs(s: string, sub: string)
    ensures Contains(s, sub) <==> Occurs(sub, s)
    decreases |s|
  {
    var n := |sub|;
    if |s| < n {
    } else if s[..n] == sub {
      assert OccursAt(sub, s, 0);
    } else {
      ContainsIffOccurs(s[1..], sub);
      if Contains(s[1..], sub) {
        var i :| OccursAt(sub, s[1..], i);
        assert s[1..][i..i + n] == sub;
        ghost var w := s[i + 1..i + 1 + n];
        assert forall k :: 0 <= k < n ==> w[k] == sub[k];
        assert OccursAt(sub, s, i + 1);
      } else {
        forall i | 0 <= i <= |s| - n
          ensures !OccursAt(sub, s, i)
        {
          if i > 0 {
            assert !OccursAt(sub, s[1..], i - 1);
            assert s[i..i + n] == s[1..][i - 1..i - 1 + n];
          }
        }
      }
    }
  }

  // ---------------------------------------------------------------------
  // Whitespace stripping
  // ---------------------------------------------------------------------

  /** Python's `str.isspace()` for one character: the ASCII controls
      U+0009..U+000D and U+001C..U+001F, the space, and the Unicode
      separators U+0085, U+00A0, U+1680, U+2000..U+200A, U+2028, U+2029,
      U+202F, U+205F and U+3000. */
  predicate IsSpace(c: char) {
    || ('\t' <= c <= '\r')
    || ('\U{1C}' <= c <= '\U{1F}')
    || c == ' '
    || c == '\U{85}'
    || c == '\U{A0}'
    || c == '\U{1680}'
    || ('\U{2000}' <= c <= '\U{200A}')
    || c == '\U{2028}'
    || c == '\U{2029}'
    || c == '\U{202F}'
    || c == '\U{205F}'
    || c == '\U{3000}'
  }

  /** Drops the leading whitespace. */
  function TrimLeft(s: string): string
    decreases |s|
  {
    if |s| > 0 && IsSpace(s[0]) then TrimLeft(s[1..]) else s
  }

  /** Drops the trailing whitespace. */
  function TrimRight(s: string): string
    decreases |s|
  {
    if |s| > 0 && IsSpace(s[|s| - 1]) then TrimRight(s[..|s| - 1]) else s
  }

  /** What the left trim leaves is a suffix of `s`, what it drops is all
      whitespace, and what it leaves does not start with whitespace. */
  lemma {:induction false} TrimLeftSpec(s: string)
    ensures var r := TrimLeft(s);
      && |r| <= |s| && r == s[|s| - |r|..]
      && (forall k :: 0 <= k < |s| - |r| ==> IsSpace(s[k]))
      && (r == [] || !IsSpace(r[0]))
    decreases |s|
  {
    if |s| > 0 && IsSpace(s[0]) {
      TrimLeftSpec(s[1..]);
      var r := TrimLeft(s[1..]);
      assert s[1..][|s| - 1 - |r|..] == s[|s| - |r|..];
      forall k | 0 <= k < |s| - |r| ensures IsSpace(s[k]) {
        if k > 0 {
          assert s[k] == s[1..][k - 1];
        }
      }
    }
  }

  /** What the right trim leaves is a prefix of `s`, what it drops is all
      whitespace, and what it leaves does not end with whitespace. */
  lemma {:induction false} TrimRightSpec(s: string)
    ensures var r := TrimRight(s);
      && |r| <= |s| && r == s[..|r|]
      && (forall k :: |r| <= k < |s| ==> IsSpace(s[k]))
      && (r == [] || !IsSpace(r[|r| - 1]))
    decreases |s|
  {
    if |s| > 0 && IsSpace(s[|s| - 1]) {
      var init := s[..|s| - 1];
      TrimRightSpec(init);
      var r := TrimRight(init);
      assert init[..|r|] == s[..|r|];
      forall k | |r| <= k < |s| ensures IsSpace(s[k]) {
        if k < |s| - 1 {
          assert s[k] == init[k];
        }
      }
    }
  }

  /** Python's `s.strip()`: neither end of the result is whitespace. */
  function Strip(s: string): (r: string)
    ensures |r| <= |s|
    ensures r == [] || (!IsSpace(r[0]) && !IsSpace(r[|r| - 1]))
  {
    var l := TrimLeft(s);
    TrimLeftSpec(s);
    TrimRightSpec(l);
    var r := TrimRight(l);
    assert r != [] ==> r[0] == l[0];
    r
  }

  /** A string with no whitespace at either end. */
  predicate IsStripped(s: string) {
    s == [] || (!IsSpace(s[0]) && !IsSpace(s[|s| - 1]))
  }

  /** The left trim stops at the first character that is not whitespace. */
  lemma {:induction false} TrimLeftAt(s: string, i: nat)
    requires i <= |s|
    requires forall k :: 0 <= k < i ==> IsSpace(s[k])
    requires i == |s| || !IsSpace(s[i])
    ensures TrimLeft(s) == s[i..]
    decreases i
  {
    if i > 0 {
      TrimLeftAt(s[1..], i - 1);
      assert s[1..][i - 1..] == s[i..];
    }
  }

  /** The right trim stops after the last character that is not whitespace. */
  lemma {:induction false} TrimRightAt(s: string, j: nat)
    requires j <= |s|
    requires forall k :: j <= k < |s| ==> IsSpace(s[k])
    requires j == 0 || !IsSpace(s[j - 1])
    ensures TrimRight(s) == s[..j]
    decreases |s| - j
  {
    if j < |s| {
      TrimRightAt(s[..|s| - 1], j);
      assert s[..|s| - 1][..j] == s[..j];
    }
  }

  lemma TrimRightOfSuffix(s: string, i: nat, j: nat)
    requires i < j <= |s|
    requires forall k :: j <= k < |s| ==> IsSpace(s[k])
    requires !IsSpace(s[j - 1])
    ensures TrimRight(s[i..]) == s[i..j]
  {
    ghost var l := s[i..];
    assert forall k :: j - i <= k < |l| ==> IsSpace(l[k]) by {
      forall k | j - i <= k < |l| ensures IsSpace(l[k]) {
        assert l[k] == s[i + k];
      }
    }
    TrimRightAt(l, j - i);
    assert l[..j - i] == s[i..j];
  }

  /** `Strip(s)` is exactly the slice `s[i..j]` whenever `s[..i]` and `s[j..]`
      are whitespace and the slice is empty or has no whitespace at its ends:
      strip removes all of the surrounding whitespace and nothing else. */
  lemma StripIsSlice(s: string, i: nat, j: nat)
    requires i <= j <= |s|
    requires forall k :: 0 <= k < i ==> IsSpace(s[k])
    requires forall k :: j <= k < |s| ==> IsSpace(s[k])
    requires i == j || (!IsSpace(s[i]) && !IsSpace(s[j - 1]))
    ensures Strip(s) == s[i..j]
  {
    if i == j {
      assert TrimLeft(s) == [] by {
        assert forall k :: 0 <= k < |s| ==> IsSpace(s[k]);
        TrimLeftAt(s, |s|);
      }
    } else {
      assert TrimLeft(s) == s[i..] by {
        TrimLeftAt(s, i);
      }
      assert TrimRight(s[i..]) == s[i..j] by {
        TrimRightOfSuffix(s, i, j);
      }
    }
  }

  /** Stripping twice changes nothing more than stripping once. */
  lemma StripIdempotent(s: string)
    ensures Strip(Strip(s)) == Strip(s)
  {
    var r := Strip(s);
    StripIsSlice(r, 0, |r|);
  }

  // ---------------------------------------------------------------------
  // Decimal rendering of integers
  // ---------------------------------------------------------------------

  predicate IsDigit(c: char) {
    '0' <= c <= '9'
  }

  function DigitChar(d: nat): (c: char)
    requires d < 10
    ensures IsDigit(c) && c as int - '0' as int == d
  {
    (d + '0' as int) as char
  }

  /** The decimal digits of `n`, most significant first, with no leading zero. */
  function Digits(n: nat): (r: string)
    ensures |r| > 0 && (forall k :: 0 <= k < |r| ==> IsDigit(r[k]))
    ensures r[0] == '0' ==> n == 0
    decreases n
  {
    if n < 10 then [DigitChar(n)] else Digits(n / 10) + [DigitChar(n % 10)]
  }

  /** Python's `str(n)`: a minus sign for a negative number, then the digits. */
  function IntToString(n: int): (r: string)
  {
    if n < 0 then "-" + Digits(-n) else Digits(n)
  }

  /** The value of a string of decimal digits. */
  function DigitsValue(s: string): nat
    requires forall k :: 0 <= k < |s| ==> IsDigit(s[k])
    decreases |s|
  {
    if s == [] then 0
    else
      assert IsDigit(s[|s| - 1]);
      DigitsValue(s[..|s| - 1]) * 10 + (s[|s| - 1] as int - '0' as int)
  }

  /** Reads an optionally signed decimal integer; `None` for anything else. */
  function ParseInt(s: string): Option<int>
  {
    if |s| > 0 && s[0] == '-' then
      if |s| > 1 && (forall k :: 1 <= k < |s| ==> IsDigit(s[k]))
      then Some(0 - DigitsValue(s[1..]) as int) else None
    else if |s| > 0 && (forall k :: 0 <= k < |s| ==> IsDigit(s[k]))
    then Some(DigitsValue(s)) else None
  }

  lemma {:induction false} DigitsRoundTrip(n: nat)
    ensures DigitsValue(Digits(n)) == n
    decreases n
  {
    if n >= 10 {
      DigitsRoundTrip(n / 10);
      var s := Digits(n);
      assert s[..|s| - 1] == Digits(n / 10);
    }
  }

  /** Reading back `str(n)` gives `n`, for every integer. */
  lemma IntToStringRoundTrip(n: int)
    ensures ParseInt(IntToString(n)) == Some(n)
  {
    if n < 0 {
      DigitsRoundTrip(-n);
      var s := IntToString(n);
      assert s[1..] == Digits(-n);
    } else {
      DigitsRoundTrip(n);
    }
  }

  /** Different integers have different decimal renderings. */
  lemma IntToStringInjective(m: int, n: int)
    requires IntToString(m) == IntToString(n)
    ensures m == n
  {
    IntToStringRoundTrip(m);
    IntToStringRoundTrip(n);
  }
}
