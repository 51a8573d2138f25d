/** Text and sequence helpers mirroring the Python string methods the pipeline calls. */
module Strings {
  import opened Wrappers

  /** Python's `str.isspace()`: the characters `str.strip()` removes. */
  predicate IsSpace(c: char) {
    var n := c as int;
    n == 0x20 || 0x09 <= n <= 0x0D || 0x1C <= n <= 0x1F || n == 0x85 || n == 0xA0 ||
    n == 0x1680 || 0x2000 <= n <= 0x200A || n == 0x2028 || n == 0x2029 ||
    n == 0x202F || n == 0x205F || n == 0x3000
  }

  /** C's `isspace` in the "C" locale: the blanks pandas' number parser skips around a number. */
  predicate IsAsciiSpace(c: char) {
    var n := c as int;
    n == 0x20 || 0x09 <= n <= 0x0D
  }

  /** Every character of `s` is one that `sp` counts as blank. */
  predicate AllOf(s: string, sp: char -> bool) {
    forall i :: 0 <= i < |s| ==> sp(s[i])
  }

  predicate AllSpace(s: string) {
    AllOf(s, IsSpace)
  }

  /** `s.lstrip()`: the suffix of `s` left after dropping leading blanks. */
  function TrimLeft(s: string, sp: char -> bool): (r: string)
    ensures |r| <= |s| && r == s[|s| - |r|..]
    ensures AllOf(s[..|s| - |r|], sp)
    ensures r == [] || !sp(r[0])
  {
    if |s| > 0 && sp(s[0]) then
      var r := TrimLeft(s[1..], sp);
      assert s[1..][..|s| - 1 - |r|] == s[1..|s| - |r|];
      assert s[1..][|s| - 1 - |r|..] == s[|s| - |r|..];
      var dropped := s[..|s| - |r|];
      assert AllOf(dropped, sp) by {
        forall i | 0 <= i < |dropped|
          ensures sp(dropped[i])
        {
          if i > 0 {
            assert dropped[i] == s[1..][..|s| - 1 - |r|][i - 1];
          }
        }
      }
      r
    else s
  }

  /** `s.rstrip()`: the prefix of `s` left after dropping trailing blanks. */
  function TrimRight(s: string, sp: char -> bool): (r: string)
    ensures |r| <= |s| && r == s[..|r|]
    ensures AllOf(s[|r|..], sp)
    ensures r == [] || !sp(r[|r| - 1])
  {
    if |s| > 0 && sp(s[|s| - 1]) then
      var r := TrimRight(s[..|s| - 1], sp);
      assert s[..|s| - 1][..|r|] == s[..|r|];
      assert s[..|s| - 1][|r|..] == s[|r|..|s| - 1];
      var dropped := s[|r|..];
      assert AllOf(dropped, sp) by {
        forall i | 0 <= i < |dropped|
          ensures sp(dropped[i])
        {
          if i < |s| - 1 - |r| {
            assert dropped[i] == s[..|s| - 1][|r|..][i];
          }
        }
      }
      r
    else s
  }

  /** Blanks, as `sp` defines them, removed from both ends and nowhere else. */
  function StripWith(s: string, sp: char -> bool): (r: string)
    ensures r == [] || (!sp(r[0]) && !sp(r[|r| - 1]))
    ensures r == [] <==> AllOf(s, sp)
    ensures (s == [] || (!sp(s[0]) && !sp(s[|s| - 1]))) ==> r == s
  {
    var l := TrimLeft(s, sp);
    if l == [] then
      assert AllOf(s, sp) by {
        assert s[..|s|] == s;
      }
      []
    else
      var r := TrimRight(l, sp);
      assert r != [] by {
        assert !sp(l[0]);
      }
      assert !sp(r[0]) by {
        assert r[0] == l[0];
      }
      assert !AllOf(s, sp) by {
        assert s[|s| - |l|] == l[0];
      }
      r
  }

  /** `s.strip()`: whitespace removed from both ends and nowhere else. */
  function Strip(s: string): (r: string)
    ensures r == [] || (!IsSpace(r[0]) && !IsSpace(r[|r| - 1]))
    ensures r == [] <==> AllSpace(s)
    ensures (s == [] || (!IsSpace(s[0]) && !IsSpace(s[|s| - 1]))) ==> r == s
  {
    StripWith(s, IsSpace)
  }

  /** The blanks the number parser skips, removed from both ends and nowhere else. */
  function StripAscii(s: string): (r: string)
    ensures r == [] || (!IsAsciiSpace(r[0]) && !IsAsciiSpace(r[|r| - 1]))
    ensures r == [] <==> AllOf(s, IsAsciiSpace)
    ensures (s == [] || (!IsAsciiSpace(s[0]) && !IsAsciiSpace(s[|s| - 1]))) ==> r == s
  {
    StripWith(s, IsAsciiSpace)
  }

  lemma {:induction false} TrimLeftPadded(p: string, x: string, sp: char -> bool)
    requires AllOf(p, sp)
    ensures TrimLeft(p + x, sp) == TrimLeft(x, sp)
    decreases |p|
  {
    if p != [] {
      assert (p + x)[1..] == p[1..] + x;
      assert (p + x)[0] == p[0];
      TrimLeftPadded(p[1..], x, sp);
    } else {
      assert p + x == x;
    }
  }

  lemma {:induction false} TrimRightPadded(x: string, q: string, sp: char -> bool)
    requires AllOf(q, sp)
    ensures TrimRight(x + q, sp) == TrimRight(x, sp)
    decreases |q|
  {
    if q != [] {
      assert (x + q)[..|x + q| - 1] == x + q[..|q| - 1];
      assert (x + q)[|x + q| - 1] == q[|q| - 1];
      TrimRightPadded(x, q[..|q| - 1], sp);
    } else {
      assert x + q == x;
    }
  }

  lemma {:induction false} TrimLeftAppendBlanks(x: string, q: string, sp: char -> bool)
    requires AllOf(q, sp)
    ensures TrimLeft(x + q, sp) == if TrimLeft(x, sp) == [] then [] else TrimLeft(x, sp) + q
    decreases |x|
  {
    if x == [] {
      assert x + q == q;
      TrimLeftPadded(q, [], sp);
      assert q + [] == q;
    } else if sp(x[0]) {
      assert (x + q)[1..] == x[1..] + q;
      assert (x + q)[0] == x[0];
      TrimLeftAppendBlanks(x[1..], q, sp);
    } else {
      assert (x + q)[0] == x[0];
    }
  }

  /** Blanks around a string do not change what stripping returns. */
  lemma StripWithPadded(p: string, x: string, q: string, sp: char -> bool)
    requires AllOf(p, sp) && AllOf(q, sp)
    ensures StripWith(p + x + q, sp) == StripWith(x, sp)
  {
    assert p + x + q == p + (x + q);
    TrimLeftPadded(p, x + q, sp);
    TrimLeftAppendBlanks(x, q, sp);
    var l := TrimLeft(x, sp);
    if l != [] {
      TrimRightPadded(l, q, sp);
    }
  }

  /** Surrounding whitespace does not change what `strip()` returns. */
  lemma StripPadded(p: string, x: string, q: string)
    requires AllSpace(p) && AllSpace(q)
    ensures Strip(p + x + q) == Strip(x)
  {
    StripWithPadded(p, x, q, IsSpace);
  }

  /** Surrounding ASCII blanks do not change what the number parser sees. */
  lemma StripAsciiPadded(p: string, x: string, q: string)
    requires AllOf(p, IsAsciiSpace) && AllOf(q, IsAsciiSpace)
    ensures StripAscii(p + x + q) == StripAscii(x)
  {
    StripWithPadded(p, x, q, IsAsciiSpace);
  }

  /** `str.strip()` is idempotent, so stripping cleaned headers again changes nothing. */
  lemma StripIdempotent(s: string)
    ensures Strip(Strip(s)) == Strip(s)
  {
  }

  /** `s.replace(',', '')`: every comma deleted (see RemoveCommasContents for the rest). */
  function RemoveCommas(s: string): (r: string)
    ensures ',' !in r
    ensures ',' !in s ==> r == s
  {
    if s == [] then [] else (if s[0] == ',' then [] else [s[0]]) + RemoveCommas(s[1..])
  }

  /** Every character other than a comma is kept, as often as it occurred. */
  lemma {:induction false} RemoveCommasContents(s: string)
    ensures multiset(RemoveCommas(s)) == multiset(s)[',' := 0]
    decreases |s|
  {
    if s != [] {
      assert s == [s[0]] + s[1..];
      RemoveCommasContents(s[1..]);
    }
  }

  lemma {:induction false} RemoveCommasAppend(a: string, b: string)
    ensures RemoveCommas(a + b) == RemoveCommas(a) + RemoveCommas(b)
    decreases |a|
  {
    if a == [] {
      assert a + b == b;
    } else {
      assert (a + b)[0] == a[0];
      assert (a + b)[1..] == a[1..] + b;
      RemoveCommasAppend(a[1..], b);
    }
  }

  /** ASCII lower-casing of one character (`str.lower()` on the ASCII range). */
  function LowerChar(c: char): char {
    if 'A' <= c <= 'Z' then (c as int - 'A' as int + 'a' as int) as char else c
  }

  function Lower(s: string): (r: string)
    ensures |r| == |s| && forall i :: 0 <= i < |s| ==> r[i] == LowerChar(s[i])
  {
    seq(|s|, i requires 0 <= i < |s| => LowerChar(s[i]))
  }

  /** `t` occurs in `s` starting at index `i`. */
  predicate OccursAt(s: string, t: string, i: int) {
    0 <= i && i + |t| <= |s| && s[i..i + |t|] == t
  }

  /** Python's `t in s` for strings: `t` is a contiguous substring of `s`. */
  function Contains(s: string, t: string): (r: bool)
    ensures r <==> exists i :: OccursAt(s, t, i)
    decreases |s|
  {
    if |t| > |s| then
      assert forall i :: !OccursAt(s, t, i);
      false
    else if s[..|t|] == t then
      assert OccursAt(s, t, 0);
      true
    else
      var rest := Contains(s[1..], t);
      assert rest ==> exists i :: OccursAt(s, t, i) by {
        if rest {
          var i :| OccursAt(s[1..], t, i);
          assert s[1..][i..i + |t|] == s[i + 1..i + 1 + |t|];
          assert OccursAt(s, t, i + 1);
        }
      }
      assert (exists i :: OccursAt(s, t, i)) ==> rest by {
        if exists i :: OccursAt(s, t, i) {
          var i :| OccursAt(s, t, i);
          assert i != 0;
          assert s[1..][i - 1..i - 1 + |t|] == s[i..i + |t|];
          assert OccursAt(s[1..], t, i - 1);
        }
      }
      rest
  }

  /** Index of the first element satisfying `p` (a list comprehension's `[0]`), or None. */
  function FirstIndex<T>(xs: seq<T>, p: T -> bool): (r: Option<nat>)
    ensures r.Some? ==> r.value < |xs| && p(xs[r.value])
    ensures r.Some? ==> forall j :: 0 <= j < r.value ==> !p(xs[j])
    ensures r.None? <==> forall j :: 0 <= j < |xs| ==> !p(xs[j])
  {
    if |xs| == 0 then None
    else if p(xs[0]) then Some(0)
    else
      match FirstIndex(xs[1..], p)
      case None => None
      case Some(k) => Some(k + 1)
  }

  /** Appending an element that fails `p` does not move the first match. */
  lemma FirstIndexAppend<T>(xs: seq<T>, x: T, p: T -> bool)
    requires !p(x)
    ensures FirstIndex(xs + [x], p) == FirstIndex(xs, p)
  {
    assert forall j :: 0 <= j < |xs| ==> (xs + [x])[j] == xs[j];
  }
}
