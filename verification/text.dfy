/**
 * The handful of string operations the contact book relies on: trimming,
 * lower-casing, removing phone separators, the all-digits test and substring
 * containment. Each is stated over `string` (a `seq<char>`) with the ASCII
 * meaning of whitespace, case and digits.
 */
module Text {

  /** The ASCII characters that `str.strip` removes: space, tab, line feed,
      carriage return, vertical tab, form feed and the four information
      separators U+001C..U+001F. */
  predicate IsSpace(c: char) {
    c == ' ' || c == '\t' || c == '\n' || c == '\r' || c == '\U{B}' || c == '\U{C}'
    || ('\U{1C}' <= c <= '\U{1F}')
  }

  predicate IsDigit(c: char) {
    '0' <= c <= '9'
  }

  /** Drops the leading whitespace of `s`. */
  function TrimStart(s: string): (r: string)
    ensures |r| <= |s|
    ensures forall k :: 0 <= k < |s| - |r| ==> IsSpace(s[k])
    ensures r != [] ==> !IsSpace(r[0])
    decreases |s|
  {
    if s != [] && IsSpace(s[0]) then TrimStart(s[1..]) else s
  }

  /** Drops the trailing whitespace of `s`. */
  function TrimEnd(s: string): (r: string)
    ensures |r| <= |s|
    ensures forall k :: |r| <= k < |s| ==> IsSpace(s[k])
    ensures r != [] ==> !IsSpace(r[|r| - 1])
    decreases |s|
  {
    if s != [] && IsSpace(s[|s| - 1]) then TrimEnd(s[..|s| - 1]) else s
  }

  /** What `TrimStart` keeps is a suffix of its input. */
  lemma {:induction false} TrimStartIsSuffix(s: string)
    ensures TrimStart(s) == s[|s| - |TrimStart(s)|..]
    decreases |s|
  {
    if s != [] && IsSpace(s[0]) {
      TrimStartIsSuffix(s[1..]);
      assert s[1..][|s| - 1 - |TrimStart(s)|..] == s[|s| - |TrimStart(s)|..];
    }
  }

  /** What `TrimEnd` keeps is a prefix of its input. */
  lemma {:induction false} TrimEndIsPrefix(s: string)
    ensures TrimEnd(s) == s[..|TrimEnd(s)|]
    decreases |s|
  {
    if s != [] && IsSpace(s[|s| - 1]) {
      TrimEndIsPrefix(s[..|s| - 1]);
      assert s[..|s| - 1][..|TrimEnd(s)|] == s[..|TrimEnd(s)|];
    }
  }

  /** `s.strip()`: whitespace removed from both ends. */
  function Trim(s: string): (r: string)
    ensures |r| <= |s|
    ensures r != [] ==> !IsSpace(r[0]) && !IsSpace(r[|r| - 1])
    ensures r == [] <==> forall k :: 0 <= k < |s| ==> IsSpace(s[k])
  {
    var t := TrimStart(s);
    var r := TrimEnd(t);
    TrimStartIsSuffix(s);
    TrimEndIsPrefix(t);
    assert r != [] ==> r[0] == t[0];
    assert r == [] ==> t == [];
    r
  }

  /** Every character of `s` outside positions `a` .. `b` - 1 is whitespace. */
  ghost predicate SpaceOutside(s: string, a: int, b: int) {
    forall k :: 0 <= k < |s| && (k < a || b <= k) ==> IsSpace(s[k])
  }

  /** `Trim(s)` is the middle of `s`: a slice of it with only whitespace
      on either side. */
  lemma TrimIsMiddle(s: string)
    ensures exists a, b ::
      0 <= a <= b <= |s| && Trim(s) == s[a..b] && SpaceOutside(s, a, b)
  {
    var t := TrimStart(s);
    var r := TrimEnd(t);
    TrimStartIsSuffix(s);
    TrimEndIsPrefix(t);
    var a := |s| - |t|;
    var b := a + |r|;
    assert r == s[a..b] by {
      assert s[a..b] == t[..|r|];
    }
    forall k | b <= k < |s| ensures IsSpace(s[k]) {
      assert s[k] == t[k - a];
    }
    assert SpaceOutside(s, a, b);
  }

  /** Trimming an already trimmed string changes nothing. */
  lemma TrimIdempotent(s: string)
    ensures Trim(Trim(s)) == Trim(s)
  {
    var r := Trim(s);
    if r != [] {
      assert TrimStart(r) == r;
      assert TrimEnd(r) == r;
    }
  }

  function LowerChar(c: char): char {
    if 'A' <= c <= 'Z' then (c as int + 32) as char else c
  }

  /** `s.lower()` on ASCII letters; every other character is kept. */
  function Lower(s: string): (r: string)
    ensures |r| == |s|
    ensures forall i :: 0 <= i < |s| ==> !('A' <= r[i] <= 'Z')
  {
    seq(|s|, i requires 0 <= i < |s| => LowerChar(s[i]))
  }

  /** `s.replace(x, "")`: every occurrence of `x` removed. The other
      characters also keep their order, which the contracts below do not
      state: the phone test reads only which characters remain. */
  function RemoveAll(s: string, x: char): (r: string)
    ensures x !in r
    ensures |r| <= |s|
    decreases |s|
  {
    if s == [] then []
    else (if s[0] == x then [] else [s[0]]) + RemoveAll(s[1..], x)
  }

  /** Removal keeps every other character, as often as it occurred. */
  lemma {:induction false} RemoveAllCounts(s: string, x: char)
    ensures multiset(RemoveAll(s, x)) == multiset(s)[x := 0]
    decreases |s|
  {
    if s != [] {
      RemoveAllCounts(s[1..], x);
      assert s == [s[0]] + s[1..];
    }
  }

  /** The phone with `+`, `-` and space removed, in that order. */
  function StripSeparators(s: string): string {
    RemoveAll(RemoveAll(RemoveAll(s, '+'), '-'), ' ')
  }

  /** `s.isdigit()` on ASCII: false on the empty string. */
  predicate IsDigits(s: string) {
    |s| > 0 && forall i :: 0 <= i < |s| ==> IsDigit(s[i])
  }

  predicate IsSeparator(c: char) {
    c == '+' || c == '-' || c == ' '
  }

  /** The phone test of the contact book: separators removed, what is left
      must be a non-empty run of digits. */
  predicate ValidPhone(p: string)
    ensures ValidPhone(p) ==> p != []
  {
    IsDigits(StripSeparators(p))
  }

  /** A character survives removal of `x` exactly when it occurs and is not
      `x`. */
  lemma RemoveAllMembers(s: string, x: char, c: char)
    ensures c in RemoveAll(s, x) <==> c in s && c != x
  {
    RemoveAllCounts(s, x);
    assert c in RemoveAll(s, x) <==> multiset(RemoveAll(s, x))[c] > 0;
    assert c in s <==> multiset(s)[c] > 0;
  }

  /** A character survives separator removal exactly when it occurs in `s`
      and is not a separator. */
  lemma StripSeparatorsMembers(s: string, c: char)
    ensures c in StripSeparators(s) <==> c in s && !IsSeparator(c)
  {
    var a := RemoveAll(s, '+');
    var b := RemoveAll(a, '-');
    RemoveAllMembers(s, '+', c);
    RemoveAllMembers(a, '-', c);
    RemoveAllMembers(b, ' ', c);
  }

  /** An independent reading of the phone test: every character is a digit or
      a separator, and at least one is a digit. */
  lemma ValidPhoneIff(p: string)
    ensures ValidPhone(p) <==>
      (forall i :: 0 <= i < |p| ==> IsDigit(p[i]) || IsSeparator(p[i]))
      && (exists i :: 0 <= i < |p| && IsDigit(p[i]))
  {
    var r := StripSeparators(p);
    if ValidPhone(p) {
      forall i | 0 <= i < |p| ensures IsDigit(p[i]) || IsSeparator(p[i]) {
        StripSeparatorsMembers(p, p[i]);
        if !IsSeparator(p[i]) {
          var j :| 0 <= j < |r| && r[j] == p[i];
        }
      }
      StripSeparatorsMembers(p, r[0]);
      var i :| 0 <= i < |p| && p[i] == r[0];
    } else if (forall i :: 0 <= i < |p| ==> IsDigit(p[i]) || IsSeparator(p[i]))
           && (exists i :: 0 <= i < |p| && IsDigit(p[i])) {
      var i :| 0 <= i < |p| && IsDigit(p[i]);
      StripSeparatorsMembers(p, p[i]);
      assert |r| > 0;
      forall j | 0 <= j < |r| ensures IsDigit(r[j]) {
        StripSeparatorsMembers(p, r[j]);
        var k :| 0 <= k < |p| && p[k] == r[j];
      }
      assert false;
    }
  }

  predicate StartsWith(s: string, prefix: string) {
    |prefix| <= |s| && s[..|prefix|] == prefix
  }

  /** `needle in hay`: try each starting position from the left. */
  predicate Contains(hay: string, needle: string)
    ensures Contains(hay, needle) ==> |needle| <= |hay|
    ensures needle == [] ==> Contains(hay, needle)
    decreases |hay|
  {
    StartsWith(hay, needle) || (hay != [] && Contains(hay[1..], needle))
  }

  /** The searching definition agrees with "some suffix of `hay` starts with
      `needle`". */
  lemma {:induction false} ContainsIff(hay: string, needle: string)
    ensures Contains(hay, needle) <==>
      exists i :: 0 <= i <= |hay| && StartsWith(hay[i..], needle)
    decreases |hay|
  {
    if StartsWith(hay, needle) {
      assert hay[0..] == hay;
    } else if hay == [] {
      forall i | 0 <= i <= |hay| ensures !StartsWith(hay[i..], needle) {
        assert hay[i..] == hay;
      }
    } else {
      ContainsIff(hay[1..], needle);
      if Contains(hay[1..], needle) {
        var i :| 0 <= i <= |hay[1..]| && StartsWith(hay[1..][i..], needle);
        assert hay[1..][i..] == hay[i + 1..];
      } else {
        forall i | 0 <= i <= |hay| ensures !StartsWith(hay[i..], needle) {
          if i == 0 {
            assert hay[0..] == hay;
          } else {
            assert hay[1..][i - 1..] == hay[i..];
          }
        }
      }
    }
  }

  /** Every string contains itself. */
  lemma ContainsSelf(s: string)
    ensures Contains(s, s)
  {
    assert s[..|s|] == s;
  }
}
